/** The broadcast events: where each is sent (`broadcastOn`) and the
    payload it carries (`broadcastWith`), and the log record the model
    keeps of every broadcast. Payloads are JSON values. */
module Events {
  import opened Basics
  import opened Decimal
  import opened DirectMessages
  import opened GroupMessages

  /** The JSON a payload array serialises to. Timestamps are carried as
      their clock reading. */
  datatype Json =
    | JNull
    | JBool(b: bool)
    | JNum(n: int)
    | JStr(s: string)
    | JObj(fields: map<string, Json>)

  predicate Has(j: Json, key: string) {
    j.JObj? && key in j.fields
  }

  function Get(j: Json, key: string): Json {
    if Has(j, key) then j.fields[key] else JNull
  }

  function Keys(j: Json): set<string> {
    if j.JObj? then j.fields.Keys else {}
  }

  function NullableNum(o: Option<nat>): Json {
    if o.Some? then JNum(o.value) else JNull
  }

  function NullableStr(o: Option<string>): Json {
    if o.Some? then JStr(o.value) else JNull
  }

  /** A broadcast channel: `PrivateChannel` needs channel authorization,
      `Channel` is public. */
  datatype Channel = PrivateChannel(name: string) | PublicChannel(name: string)

  /** The name a client subscribes to: the socket layer prefixes the names
      of private channels with "private-". */
  function WireName(c: Channel): string {
    match c
    case PrivateChannel(n) => "private-" + n
    case PublicChannel(n) => n
  }

  function ChatChannelName(u: UserId): string {
    "chat." + NatToDecimal(u)
  }

  function GroupChannelName(g: GroupId): string {
    "group." + NatToDecimal(g)
  }

  lemma ChatChannelNameInjective(a: UserId, b: UserId)
    ensures ChatChannelName(a) == ChatChannelName(b) <==> a == b
  {
    DecimalInjective(a, b);
    if ChatChannelName(a) == ChatChannelName(b) {
      assert ChatChannelName(a)[5..] == NatToDecimal(a);
      assert ChatChannelName(b)[5..] == NatToDecimal(b);
    }
  }

  lemma GroupChannelNameInjective(a: GroupId, b: GroupId)
    ensures GroupChannelName(a) == GroupChannelName(b) <==> a == b
  {
    DecimalInjective(a, b);
    if GroupChannelName(a) == GroupChannelName(b) {
      assert GroupChannelName(a)[6..] == NatToDecimal(a);
      assert GroupChannelName(b)[6..] == NatToDecimal(b);
    }
  }

  // ---------------------------------------------------------------------
  // Direct messages

  /** `Message::toArray()`: the columns of the row that the model keeps
      (all but `updated_at`). */
  function DirectMessageArray(m: DirectMessage): (j: Json)
    ensures Keys(j) == {"id", "sender_id", "receiver_id", "message", "created_at", "delivered_at", "is_read"}
    ensures Get(j, "delivered_at") == JNull <==> m.deliveredAt.None?
  {
    JObj(map[
      "id" := JNum(m.id),
      "sender_id" := JNum(m.senderId),
      "receiver_id" := JNum(m.receiverId),
      "message" := JStr(m.body),
      "created_at" := JNum(m.createdAt),
      "delivered_at" := NullableNum(m.deliveredAt),
      "is_read" := JBool(m.isRead)])
  }

  function AsNat(j: Json): Option<nat> {
    if j.JNum? && j.n >= 0 then Some(j.n) else None
  }

  /** How a client reads a message array back. */
  function DecodeDirectMessage(j: Json): Option<DirectMessage> {
    var id, sender, receiver, created := AsNat(Get(j, "id")), AsNat(Get(j, "sender_id")),
      AsNat(Get(j, "receiver_id")), AsNat(Get(j, "created_at"));
    var body, delivered, read := Get(j, "message"), Get(j, "delivered_at"), Get(j, "is_read");
    if id.Some? && sender.Some? && receiver.Some? && created.Some? && body.JStr? && read.JBool?
      && (delivered.JNull? || AsNat(delivered).Some?)
    then
      Some(DirectMessage(id.value, sender.value, receiver.value, body.s, created.value,
        if delivered.JNull? then None else AsNat(delivered), read.b))
    else None
  }

  /** The message array carries the whole message. */
  lemma DecodeDirectMessageArray(m: DirectMessage)
    ensures DecodeDirectMessage(DirectMessageArray(m)) == Some(m)
  {
  }

  /** `MessageDelivered::broadcastOn`: the private channel of the sender. */
  function MessageDeliveredOn(m: DirectMessage): (c: Channel)
    ensures c.PrivateChannel?
    ensures forall u :: c.name == ChatChannelName(u) <==> u == m.senderId
  {
    forall u ensures ChatChannelName(u) == ChatChannelName(m.senderId) <==> u == m.senderId {
      ChatChannelNameInjective(u, m.senderId);
    }
    PrivateChannel(ChatChannelName(m.senderId))
  }

  /** `MessageDelivered::broadcastWith`: the single key `message`, holding
      the message as an array. */
  function MessageDeliveredWith(m: DirectMessage): (j: Json)
    ensures Keys(j) == {"message"}
    ensures DecodeDirectMessage(Get(j, "message")) == Some(m)
  {
    JObj(map["message" := DirectMessageArray(m)])
  }

  // ---------------------------------------------------------------------
  // Group messages

  /** The loaded `replyTo.user` relation: the target and its author. */
  datatype ReplyRef = ReplyRef(target: GroupMessage, author: User)

  /** The `user` sub-object: id, name and avatar of the author. */
  function AuthorJson(u: User): (j: Json)
    ensures Keys(j) == {"id", "name", "avatar"}
    ensures Get(j, "id") == JNum(u.id) && Get(j, "name") == JStr(u.name)
    ensures Get(j, "avatar") == JNull <==> u.avatar.None?
  {
    JObj(map["id" := JNum(u.id), "name" := JStr(u.name), "avatar" := NullableStr(u.avatar)])
  }

  /** The `replyTo` sub-object: null without a target, else its id, text
      and author name. */
  function ReplyJson(reply: Option<ReplyRef>): (j: Json)
    ensures j == JNull <==> reply.None?
    ensures reply.Some? ==> Keys(j) == {"id", "message", "user"} && Keys(Get(j, "user")) == {"name"}
    ensures reply.Some? ==>
      (Get(j, "id") == JNum(reply.value.target.id) &&
       Get(j, "message") == JStr(reply.value.target.body) &&
       Get(Get(j, "user"), "name") == JStr(reply.value.author.name))
  {
    if reply.None? then JNull
    else JObj(map[
      "id" := JNum(reply.value.target.id),
      "message" := JStr(reply.value.target.body),
      "user" := JObj(map["name" := JStr(reply.value.author.name)])])
  }

  /** The message object shared by the event payload and the controller's
      response; they differ only in the value given for `type`. */
  function GroupMessageJson(m: GroupMessage, author: User, reply: Option<ReplyRef>, kind: Json): (j: Json)
    ensures Keys(j) == {"id", "message", "type", "reply_to", "created_at", "user", "replyTo"}
    ensures Get(j, "id") == JNum(m.id) && Get(j, "message") == JStr(m.body) && Get(j, "type") == kind
    ensures Get(j, "reply_to") == NullableNum(m.replyTo) && Get(j, "created_at") == JNum(m.createdAt)
    ensures Keys(Get(j, "user")) == {"id", "name", "avatar"}
    ensures Get(Get(j, "user"), "id") == JNum(author.id) && Get(Get(j, "user"), "name") == JStr(author.name)
    ensures Get(Get(j, "user"), "avatar") == NullableStr(author.avatar)
    ensures Get(j, "replyTo") == JNull <==> reply.None?
    ensures reply.Some? ==> Keys(Get(j, "replyTo")) == {"id", "message", "user"}
    ensures reply.Some? ==> Get(Get(j, "replyTo"), "id") == JNum(reply.value.target.id)
    ensures reply.Some? ==> Get(Get(j, "replyTo"), "message") == JStr(reply.value.target.body)
    ensures reply.Some? ==> Keys(Get(Get(j, "replyTo"), "user")) == {"name"}
    ensures reply.Some? ==> Get(Get(Get(j, "replyTo"), "user"), "name") == JStr(reply.value.author.name)
  {
    JObj(map[
      "id" := JNum(m.id),
      "message" := JStr(m.body),
      "type" := kind,
      "reply_to" := NullableNum(m.replyTo),
      "created_at" := JNum(m.createdAt),
      "user" := AuthorJson(author),
      "replyTo" := ReplyJson(reply)])
  }

  /** `GroupMessageSent::broadcastOn`: the private channel of the group. */
  function GroupMessageSentOn(m: GroupMessage): (c: Channel)
    ensures c.PrivateChannel?
    ensures forall g :: c.name == GroupChannelName(g) <==> g == m.groupId
  {
    forall g ensures GroupChannelName(g) == GroupChannelName(m.groupId) <==> g == m.groupId {
      GroupChannelNameInjective(g, m.groupId);
    }
    PrivateChannel(GroupChannelName(m.groupId))
  }

  /** `GroupMessageSent::broadcastWith`: the single key `message`; `type`
      is passed on as the instance holds it, null included. */
  function GroupMessageSentWith(m: GroupMessage, author: User, reply: Option<ReplyRef>): (j: Json)
    ensures Keys(j) == {"message"}
    ensures Get(Get(j, "message"), "type") == (if m.kind.Some? then JStr(m.kind.value) else JNull)
  {
    JObj(map["message" := GroupMessageJson(m, author, reply, NullableStr(m.kind))])
  }

  // ---------------------------------------------------------------------
  // Leaving a group

  /** `UserLeftGroup::broadcastOn`: a public channel named after the group. */
  function UserLeftGroupOn(g: Group): (c: Channel)
    ensures c.PublicChannel?
    ensures forall h :: c.name == GroupChannelName(h) <==> h == g.id
  {
    forall h ensures GroupChannelName(h) == GroupChannelName(g.id) <==> h == g.id {
      GroupChannelNameInjective(h, g.id);
    }
    PublicChannel(GroupChannelName(g.id))
  }

  /** `UserLeftGroup::broadcastWith`: the user's id and name, and the group id. */
  function UserLeftGroupWith(u: User, g: Group): (j: Json)
    ensures Keys(j) == {"user", "group_id"}
    ensures Keys(Get(j, "user")) == {"id", "name"}
    ensures Get(Get(j, "user"), "id") == JNum(u.id) && Get(Get(j, "user"), "name") == JStr(u.name)
    ensures Get(j, "group_id") == JNum(g.id)
  {
    JObj(map["user" := JObj(map["id" := JNum(u.id), "name" := JStr(u.name)]), "group_id" := JNum(g.id)])
  }

  /** Members listening on the group's private channel never receive
      UserLeftGroup: it goes out on a public channel whose name differs
      from the private channel's name on the wire. */
  lemma UserLeftGroupMissesPrivateSubscribers(m: GroupMessage, u: User, g: Group)
    requires m.groupId == g.id
    ensures WireName(UserLeftGroupOn(g)) != WireName(GroupMessageSentOn(m))
  {
    var a, b := WireName(UserLeftGroupOn(g)), WireName(GroupMessageSentOn(m));
    assert a[0] == 'g' && b[0] == 'p';
  }

  /** The channel leave notices were evidently meant for: the group's
      private channel, where GroupMessageSent goes. */
  function UserLeftGroupOnPrivate(g: Group): (c: Channel)
    ensures forall m: GroupMessage :: m.groupId == g.id ==> WireName(c) == WireName(GroupMessageSentOn(m))
  {
    PrivateChannel(GroupChannelName(g.id))
  }

  // ---------------------------------------------------------------------
  // The broadcast log

  /** An event instance; each constructor keeps what it was given. */
  datatype Event =
    | MessageSent(message: DirectMessage)
    | MessageDelivered(message: DirectMessage)
    | MessageRead(message: DirectMessage)
    | GroupMessageSent(groupMessage: GroupMessage, author: User, reply: Option<ReplyRef>)
    | UserJoinedGroup(user: User, group: Group)
    | UserLeftGroup(user: User, group: Group)

  /** One `broadcast(...)` call; `toOthers` holds when the caller's own
      socket is excluded, which `->toOthers()` achieves only for an event
      that uses InteractsWithSockets. */
  datatype Broadcast = Broadcast(event: Event, toOthers: bool)
}
