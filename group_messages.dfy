/** The group_messages table: its row, the defaults and delete rules of its
    schema, the mass-assignable fields of the model and its relations
    (group, reply target, replies). */
module GroupMessages {
  import opened Basics

  /** A row of group_messages. `kind` is the `type` column; it is None only
      on an instance that create() returned and that was not reloaded, since
      the column's default is applied by the database and not copied back. */
  datatype GroupMessage = GroupMessage(
    id: MessageId,
    groupId: GroupId,
    userId: UserId,
    body: string,
    kind: Option<string>,
    attachments: Option<seq<string>>,
    replyTo: Option<MessageId>,
    createdAt: Time)

  /** The default of the `type` column. */
  const DefaultType := "text"

  /** The attributes create() and fill() accept: id and the timestamps are
      assigned by the model and the database instead. */
  const Fillable: set<string> := {"group_id", "user_id", "message", "type", "attachments", "reply_to"}

  /** Mass assignment: the attributes of `attrs` that the model accepts. */
  function Fill<V>(attrs: map<string, V>): (r: map<string, V>)
    ensures r.Keys <= Fillable && r.Keys <= attrs.Keys
    ensures forall k :: k in attrs && k in Fillable ==> k in r && r[k] == attrs[k]
    ensures "id" !in r && "created_at" !in r && "updated_at" !in r
  {
    map k | k in attrs.Keys && k in Fillable :: attrs[k]
  }

  /** The instance GroupMessage::create returns for the four attributes the
      group-message controller passes: the auto-increment id and created_at
      are set, `type` and `attachments` were not given. */
  function Create(id: MessageId, groupId: GroupId, userId: UserId, body: string, replyTo: Option<MessageId>, now: Time): (m: GroupMessage)
    ensures m.id == id && m.groupId == groupId && m.userId == userId && m.body == body
    ensures m.replyTo == replyTo && m.createdAt == now
    ensures m.kind.None? && m.attachments.None?
  {
    GroupMessage(id, groupId, userId, body, None, None, replyTo, now)
  }

  /** The row the insert leaves in the table: an omitted `type` takes the
      column default, the nullable `attachments` and `reply_to` stay as given. */
  function Persisted(m: GroupMessage): (r: GroupMessage)
    ensures r.kind == Some(if m.kind.Some? then m.kind.value else DefaultType)
    ensures r.(kind := m.kind) == m
  {
    m.(kind := Some(m.kind.GetOr(DefaultType)))
  }

  /** Rows in auto-increment order. */
  predicate IncreasingIds(msgs: seq<GroupMessage>) {
    forall i, j :: 0 <= i < j < |msgs| ==> msgs[i].id < msgs[j].id
  }

  predicate UniqueIds(msgs: seq<GroupMessage>) {
    forall i, j :: 0 <= i < j < |msgs| ==> msgs[i].id != msgs[j].id
  }

  lemma SameIdSameRow(msgs: seq<GroupMessage>)
    requires UniqueIds(msgs)
    ensures forall a, b :: a in msgs && b in msgs && a.id == b.id ==> a == b
  {
    forall a, b | a in msgs && b in msgs && a.id == b.id ensures a == b {
      var i :| 0 <= i < |msgs| && msgs[i] == a;
      var j :| 0 <= j < |msgs| && msgs[j] == b;
      assert i == j;
    }
  }

  /** The first row with the given id. */
  function FindMessage(msgs: seq<GroupMessage>, id: MessageId): (r: Option<GroupMessage>)
    ensures r.Some? ==> r.value in msgs && r.value.id == id
    ensures r.None? <==> forall m :: m in msgs ==> m.id != id
  {
    if msgs == [] then None
    else if msgs[0].id == id then Some(msgs[0])
    else FindMessage(msgs[1..], id)
  }

  lemma {:induction false} FindUnique(msgs: seq<GroupMessage>, m: GroupMessage)
    requires UniqueIds(msgs) && m in msgs
    ensures FindMessage(msgs, m.id) == Some(m)
  {
    if msgs[0] != m {
      assert m in msgs[1..];
      FindUnique(msgs[1..], m);
    }
  }

  /** `group()`: the group the message belongs to, through group_id. */
  function GroupOf(groups: seq<Group>, m: GroupMessage): (r: Option<Group>)
    ensures r.Some? ==> r.value in groups && r.value.id == m.groupId
    ensures r.None? <==> !GroupExists(groups, m.groupId)
  {
    FindGroup(groups, m.groupId)
  }

  /** `replyTo()`: the message whose id is the reply_to of `m`; none when
      reply_to is null or names no row. */
  function ReplyTarget(msgs: seq<GroupMessage>, m: GroupMessage): (r: Option<GroupMessage>)
    ensures m.replyTo.None? ==> r.None?
    ensures r.Some? ==> r.value in msgs && Some(r.value.id) == m.replyTo
  {
    if m.replyTo.None? then None else FindMessage(msgs, m.replyTo.value)
  }

  /** `replies()`: the messages whose reply_to is the id of `p`, in table order. */
  function Replies(msgs: seq<GroupMessage>, p: GroupMessage): (r: seq<GroupMessage>)
    ensures forall m :: m in r <==> m in msgs && m.replyTo == Some(p.id)
  {
    if msgs == [] then []
    else (if msgs[0].replyTo == Some(p.id) then [msgs[0]] else []) + Replies(msgs[1..], p)
  }

  /** On a table with unique ids, `replies` is the inverse of `replyTo`. */
  lemma RepliesInverseOfReplyTarget(msgs: seq<GroupMessage>, m: GroupMessage, p: GroupMessage)
    requires UniqueIds(msgs) && m in msgs && p in msgs
    ensures m in Replies(msgs, p) <==> ReplyTarget(msgs, m) == Some(p)
  {
    if m.replyTo == Some(p.id) {
      FindUnique(msgs, p);
    }
  }

  /** Every non-null reply_to names a row of the table (the foreign key). */
  predicate RepliesResolve(msgs: seq<GroupMessage>) {
    forall i :: 0 <= i < |msgs| && msgs[i].replyTo.Some? ==>
      exists j :: 0 <= j < |msgs| && msgs[j].id == msgs[i].replyTo.value
  }

  /** A surviving row after the rows with ids in `gone` were deleted:
      `reply_to` ON DELETE SET NULL. */
  function Detach(m: GroupMessage, gone: set<MessageId>): GroupMessage {
    if m.replyTo.Some? && m.replyTo.value in gone then m.(replyTo := None) else m
  }

  /** The table after deleting the rows whose ids are in `gone`, with the
      schema's delete rules applied to the rows that stay. */
  function Purge(msgs: seq<GroupMessage>, gone: set<MessageId>): (r: seq<GroupMessage>)
    ensures |r| <= |msgs|
    ensures forall m :: m in r ==> m.id !in gone
    ensures forall m :: m in r ==> m.replyTo.Some? ==> m.replyTo.value !in gone
    // replies of deleted rows stay, detached; every other row stays as it was
    ensures forall m :: m in msgs && m.id !in gone ==> Detach(m, gone) in r
  {
    if msgs == [] then []
    else
      var rest := Purge(msgs[1..], gone);
      if msgs[0].id in gone then rest else [Detach(msgs[0], gone)] + rest
  }

  /** Every row of the purged table is a surviving row, detached. */
  lemma {:induction false} PurgeOrigin(msgs: seq<GroupMessage>, gone: set<MessageId>)
    ensures forall m :: m in Purge(msgs, gone) ==> exists o :: o in msgs && o.id !in gone && m == Detach(o, gone)
  {
    if msgs != [] {
      PurgeOrigin(msgs[1..], gone);
      var rest := Purge(msgs[1..], gone);
      forall m | m in Purge(msgs, gone)
        ensures exists o :: o in msgs && o.id !in gone && m == Detach(o, gone)
      {
        if msgs[0].id !in gone && m == Detach(msgs[0], gone) {
          assert msgs[0] in msgs;
        } else {
          assert m in rest;
          var o :| o in msgs[1..] && o.id !in gone && m == Detach(o, gone);
          assert o in msgs;
        }
      }
    }
  }

  /** Deleting rows keeps the remaining rows in auto-increment order. */
  lemma {:induction false} PurgeIncreasing(msgs: seq<GroupMessage>, gone: set<MessageId>)
    requires IncreasingIds(msgs)
    ensures IncreasingIds(Purge(msgs, gone))
  {
    if msgs != [] {
      var tail := msgs[1..];
      assert IncreasingIds(tail) by {
        forall i, j | 0 <= i < j < |tail| ensures tail[i].id < tail[j].id {
          assert tail[i] == msgs[i + 1] && tail[j] == msgs[j + 1];
        }
      }
      PurgeIncreasing(tail, gone);
      PurgeAbove(tail, gone, msgs[0].id);
    }
  }

  /** The rows that stay keep their ids, so a bound on every id survives. */
  lemma {:induction false} PurgeAbove(msgs: seq<GroupMessage>, gone: set<MessageId>, b: int)
    requires forall i :: 0 <= i < |msgs| ==> b < msgs[i].id
    ensures forall i :: 0 <= i < |Purge(msgs, gone)| ==> b < Purge(msgs, gone)[i].id
  {
    if msgs != [] {
      PurgeAbove(msgs[1..], gone, b);
    }
  }

  /** The delete rules keep the reply foreign key satisfied. */
  lemma PurgeKeepsRepliesResolved(msgs: seq<GroupMessage>, gone: set<MessageId>)
    requires RepliesResolve(msgs)
    ensures RepliesResolve(Purge(msgs, gone))
  {
    var r := Purge(msgs, gone);
    PurgeOrigin(msgs, gone);
    forall i | 0 <= i < |r| && r[i].replyTo.Some?
      ensures exists j :: 0 <= j < |r| && r[j].id == r[i].replyTo.value
    {
      var o :| o in msgs && o.id !in gone && r[i] == Detach(o, gone);
      var target := o.replyTo.value;
      assert o.replyTo == r[i].replyTo && target !in gone;
      var k :| 0 <= k < |msgs| && msgs[k] == o;
      var j :| 0 <= j < |msgs| && msgs[j].id == target;
      assert Detach(msgs[j], gone) in r;
      var j' :| 0 <= j' < |r| && r[j'] == Detach(msgs[j], gone);
      assert r[j'].id == target;
    }
  }

  function IdsWhere(msgs: seq<GroupMessage>, groupId: Option<GroupId>, userId: Option<UserId>): set<MessageId> {
    set m | m in msgs && (groupId.None? || m.groupId == groupId.value) && (userId.None? || m.userId == userId.value) :: m.id
  }

  /** Deleting one message (its id). */
  function OnMessageDeleted(msgs: seq<GroupMessage>, id: MessageId): (r: seq<GroupMessage>)
    ensures forall m :: m in r ==> m.id != id && m.replyTo != Some(id)
    ensures forall m :: m in msgs && m.id != id ==> Detach(m, {id}) in r
  {
    Purge(msgs, {id})
  }

  /** Deleting a group: its messages go with it (ON DELETE CASCADE), and
      replies to them from other groups are detached. */
  function OnGroupDeleted(msgs: seq<GroupMessage>, g: GroupId): (r: seq<GroupMessage>)
    requires UniqueIds(msgs)
    ensures forall m :: m in r ==> m.groupId != g
    ensures forall m :: m in msgs && m.groupId != g ==> Detach(m, IdsWhere(msgs, Some(g), None)) in r
  {
    SameIdSameRow(msgs);
    PurgeOrigin(msgs, IdsWhere(msgs, Some(g), None));
    Purge(msgs, IdsWhere(msgs, Some(g), None))
  }

  /** Deleting a user: their group messages go with them (ON DELETE CASCADE). */
  function OnUserDeleted(msgs: seq<GroupMessage>, u: UserId): (r: seq<GroupMessage>)
    requires UniqueIds(msgs)
    ensures forall m :: m in r ==> m.userId != u
    ensures forall m :: m in msgs && m.userId != u ==> Detach(m, IdsWhere(msgs, None, Some(u))) in r
  {
    SameIdSameRow(msgs);
    PurgeOrigin(msgs, IdsWhere(msgs, None, Some(u)));
    Purge(msgs, IdsWhere(msgs, None, Some(u)))
  }
}
