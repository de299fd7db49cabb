/** The group message controller: posting a message to a group (stored,
    answered with its JSON and broadcast to the other members) and deleting
    one. */
module GroupMessageController {
  import opened Basics
  import opened GroupMessages
  import opened GroupModel
  import opened Events
  import opened Store

  const MaxMessageLength := 1000

  /** `store`'s guards, in order: the route-bound group exists, the actor
      is a member, then `message` is required and at most 1000 characters
      and `reply_to` is null or the id of a stored group message, in any
      group. */
  function PostDecision(group: Option<Group>, ms: Memberships, actor: UserId, msgs: seq<GroupMessage>,
                        text: Option<string>, replyTo: Option<MessageId>): (r: Outcome)
    ensures r == NotFound <==> group.None?
    ensures r == Forbidden <==> group.Some? && !IsMember(ms, group.value.id, actor)
    ensures r == Ok <==>
      group.Some? && IsMember(ms, group.value.id, actor) && Filled(text) && |text.value| <= MaxMessageLength &&
      (replyTo.None? || FindMessage(msgs, replyTo.value).Some?)
  {
    if group.None? then NotFound
    else if !IsMember(ms, group.value.id, actor) then Forbidden
    else if !Filled(text) || |text.value| > MaxMessageLength then Invalid
    else if replyTo.Some? && FindMessage(msgs, replyTo.value).None? then Invalid
    else Ok
  }

  /** A reply may quote a message of another group: the guards only ask
      that the target exists. */
  lemma ReplyAcrossGroups(g: Group, ms: Memberships, actor: UserId, msgs: seq<GroupMessage>, text: string, t: GroupMessage)
    requires IsMember(ms, g.id, actor) && Filled(Some(text)) && |text| <= MaxMessageLength
    requires t in msgs && t.groupId != g.id
    ensures PostDecision(Some(g), ms, actor, msgs, Some(text), Some(t.id)) == Ok
  {
  }

  /** The loaded `replyTo.user` relation of `m`: its target and the
      target's author, when there is a target. */
  function ReplyOf(msgs: seq<GroupMessage>, users: seq<User>, m: GroupMessage): (r: Option<ReplyRef>)
    ensures r.Some? ==> r.value.target in msgs && m.replyTo == Some(r.value.target.id)
    ensures r.Some? ==> r.value.author.id == r.value.target.userId
    ensures m.replyTo.None? ==> r.None?
  {
    var t := ReplyTarget(msgs, m);
    if t.None? then None
    else
      var a := FindUser(users, t.value.userId);
      if a.None? then None else Some(ReplyRef(t.value, a.value))
  }

  /** In a valid table the reply relation is null exactly when `reply_to`
      is, and otherwise names the target and its author. */
  lemma ReplyOfResolves(msgs: seq<GroupMessage>, groups: seq<Group>, users: seq<User>, next: MessageId, m: GroupMessage)
    requires GroupMessageTable(msgs, next, groups, users)
    requires m.replyTo.None? || FindMessage(msgs, m.replyTo.value).Some?
    ensures ReplyOf(msgs, users, m).None? <==> m.replyTo.None?
  {
    if m.replyTo.Some? {
      var t := ReplyTarget(msgs, m).value;
      var k :| 0 <= k < |msgs| && msgs[k] == t;
      assert UserExists(users, msgs[k].userId);
    }
  }

  /** The JSON response: the message object with `type` defaulting to
      "text" when the instance has none. */
  function PostResponse(m: GroupMessage, author: User, reply: Option<ReplyRef>): (j: Json)
    ensures Keys(j) == {"message"}
    ensures Get(Get(j, "message"), "type") == JStr(m.kind.GetOr(DefaultType))
    ensures Get(Get(j, "message"), "replyTo") == JNull <==> reply.None?
  {
    JObj(map["message" := GroupMessageJson(m, author, reply, JStr(m.kind.GetOr(DefaultType)))])
  }

  /** For a freshly created message the response and the broadcast payload
      agree on every field but `type`: "text" in the response, null in the
      event, which reads the instance as created. */
  lemma ResponseAndEventDifferInType(id: MessageId, gid: GroupId, actor: User, text: string,
                                     replyTo: Option<MessageId>, now: Time, reply: Option<ReplyRef>)
    ensures var m := Create(id, gid, actor.id, text, replyTo, now);
      var response := Get(PostResponse(m, actor, reply), "message");
      var event := Get(GroupMessageSentWith(m, actor, reply), "message");
      response.JObj? && event.JObj? &&
      Get(event, "type") == JNull && Get(response, "type") == JStr("text") &&
      response.fields == event.fields["type" := JStr("text")]
  {
  }

  /** Appending a new row under the next id, in an existing group, by an
      existing user, with a resolvable reply, keeps the table valid. */
  lemma PostKeepsGroupMessageTable(msgs: seq<GroupMessage>, next: MessageId, groups: seq<Group>, users: seq<User>,
                                   m: GroupMessage)
    requires GroupMessageTable(msgs, next, groups, users)
    requires m.id == next && GroupExists(groups, m.groupId) && UserExists(users, m.userId) && m.kind.Some?
    requires m.replyTo.None? || FindMessage(msgs, m.replyTo.value).Some?
    ensures GroupMessageTable(msgs + [m], next + 1, groups, users)
  {
    var s := msgs + [m];
    forall i | 0 <= i < |s| && s[i].replyTo.Some?
      ensures exists j :: 0 <= j < |s| && s[j].id == s[i].replyTo.value
    {
      if i < |msgs| {
        var j :| 0 <= j < |msgs| && msgs[j].id == msgs[i].replyTo.value;
        assert s[j] == msgs[j];
      } else {
        var t := FindMessage(msgs, m.replyTo.value).value;
        var j :| 0 <= j < |msgs| && msgs[j] == t;
        assert s[j] == t;
      }
    }
  }

  /** `store`: a member posts a message. The row is created with the route
      group, the actor and the request's text and reply target, and stored
      with the column default for `type`; the response carries the message
      object, and GroupMessageSent goes to the other members. */
  method Post(db: Database, actor: UserId, gid: GroupId, text: Option<string>, replyTo: Option<MessageId>, now: Time)
    returns (r: Outcome, response: Json)
    requires db.Valid() && UserExists(db.users, actor)
    modifies db`groupMessages, db`nextGroupMessageId, db`outbox
    ensures db.Valid()
    ensures r == PostDecision(FindGroup(db.groups, gid), db.members, actor, old(db.groupMessages), text, replyTo)
    ensures r == Ok ==>
      var m := Create(old(db.nextGroupMessageId), gid, actor, text.value, replyTo, now);
      var author := FindUser(db.users, actor).value;
      var reply := ReplyOf(old(db.groupMessages), db.users, m);
      db.groupMessages == old(db.groupMessages) + [Persisted(m)] &&
      response == PostResponse(m, author, reply) &&
      db.outbox == old(db.outbox) + [Broadcast(GroupMessageSent(m, author, reply), true)]
    ensures r != Ok ==> response == JNull && db.groupMessages == old(db.groupMessages) && db.outbox == old(db.outbox)
    ensures db.nextGroupMessageId == old(db.nextGroupMessageId) + (if r == Ok then 1 else 0)
  {
    var group := FindGroup(db.groups, gid);
    r := PostDecision(group, db.members, actor, db.groupMessages, text, replyTo);
    if r != Ok {
      return r, JNull;
    }
    assert group.value in db.groups;
    response := Insert(db, actor, gid, text.value, replyTo, now);
  }

  /** The accepted path of `store`: the row is created and stored, the
      response built, and the event queued. */
  method Insert(db: Database, actor: UserId, gid: GroupId, text: string, replyTo: Option<MessageId>, now: Time)
    returns (response: Json)
    requires db.Valid() && UserExists(db.users, actor) && GroupExists(db.groups, gid)
    requires replyTo.None? || FindMessage(db.groupMessages, replyTo.value).Some?
    modifies db`groupMessages, db`nextGroupMessageId, db`outbox
    ensures db.Valid()
    ensures var m := Create(old(db.nextGroupMessageId), gid, actor, text, replyTo, now);
      var author := FindUser(db.users, actor).value;
      var reply := ReplyOf(old(db.groupMessages), db.users, m);
      db.groupMessages == old(db.groupMessages) + [Persisted(m)] &&
      response == PostResponse(m, author, reply) &&
      db.outbox == old(db.outbox) + [Broadcast(GroupMessageSent(m, author, reply), true)]
    ensures db.nextGroupMessageId == old(db.nextGroupMessageId) + 1
  {
    var m := Create(db.nextGroupMessageId, gid, actor, text, replyTo, now);
    var author := FindUser(db.users, actor).value;
    // the target was validated before the insert, so it is an older row
    var reply := ReplyOf(db.groupMessages, db.users, m);
    response := PostResponse(m, author, reply);
    PostKeepsGroupMessageTable(db.groupMessages, db.nextGroupMessageId, db.groups, db.users, Persisted(m));
    db.AppendGroupMessage(Persisted(m), Broadcast(GroupMessageSent(m, author, reply), true));
  }

  /** `destroy`'s guard: the route-bound message exists, and the actor is
      its author or a moderator of its group. */
  function DeleteDecision(message: Option<GroupMessage>, ms: Memberships, actor: UserId): (r: Outcome)
    ensures r == Ok <==> message.Some? && (message.value.userId == actor || IsModerator(ms, message.value.groupId, actor))
    ensures r == Forbidden <==> message.Some? && message.value.userId != actor && !IsModerator(ms, message.value.groupId, actor)
    ensures r == NotFound <==> message.None?
  {
    if message.None? then NotFound
    else if message.value.userId != actor && !IsModerator(ms, message.value.groupId, actor) then Forbidden
    else Ok
  }

  /** Deleting a message keeps the table valid. */
  lemma DeleteKeepsGroupMessageTable(msgs: seq<GroupMessage>, next: MessageId, groups: seq<Group>, users: seq<User>,
                                     id: MessageId)
    requires GroupMessageTable(msgs, next, groups, users)
    ensures GroupMessageTable(OnMessageDeleted(msgs, id), next, groups, users)
  {
    PurgeIncreasing(msgs, {id});
    PurgeKeepsRepliesResolved(msgs, {id});
    PurgeOrigin(msgs, {id});
    var r := Purge(msgs, {id});
    forall i | 0 <= i < |r|
      ensures r[i].id < next && GroupExists(groups, r[i].groupId) && UserExists(users, r[i].userId) && r[i].kind.Some?
    {
      assert r[i] in r;
      var o :| o in msgs && o.id !in {id} && r[i] == Detach(o, {id});
      var k :| 0 <= k < |msgs| && msgs[k] == o;
    }
  }

  /** `destroy`: the author or a moderator deletes the message; replies to
      it stay, detached; nothing is broadcast. */
  method DeleteMessage(db: Database, actor: UserId, id: MessageId) returns (r: Outcome)
    requires db.Valid()
    modifies db`groupMessages
    ensures db.Valid()
    ensures r == DeleteDecision(FindMessage(old(db.groupMessages), id), db.members, actor)
    ensures r == Ok ==> db.groupMessages == OnMessageDeleted(old(db.groupMessages), id)
    ensures r != Ok ==> db.groupMessages == old(db.groupMessages)
  {
    var message := FindMessage(db.groupMessages, id);
    r := DeleteDecision(message, db.members, actor);
    if r != Ok {
      return;
    }
    DeleteKeepsGroupMessageTable(db.groupMessages, db.nextGroupMessageId, db.groups, db.users, id);
    db.ReplaceGroupMessages(OnMessageDeleted(db.groupMessages, id));
  }
}
