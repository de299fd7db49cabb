/** The persisted store the controllers work on: the tables as sequences of
    rows (in primary-key order), the group_members pivot as a map, the
    auto-increment counters, and the log of broadcasts issued. */
module Store {
  import opened Basics
  import opened DirectMessages
  import opened GroupMessages
  import opened GroupModel
  import opened Events

  predicate UniqueUserIds(users: seq<User>) {
    forall i, j :: 0 <= i < j < |users| ==> users[i].id != users[j].id
  }

  /** The messages table: auto-increment ids below `next`, and read
      implies delivered. */
  ghost predicate DirectTable(msgs: seq<DirectMessage>, next: MessageId) {
    (forall i :: 0 <= i < |msgs| ==> msgs[i].id < next) &&
    (forall i, j :: 0 <= i < j < |msgs| ==> msgs[i].id < msgs[j].id) &&
    ReadImpliesDelivered(msgs)
  }

  /** Rows in auto-increment order. */
  predicate IncreasingGroupIds(groups: seq<Group>) {
    forall i, j :: 0 <= i < j < |groups| ==> groups[i].id < groups[j].id
  }

  /** The groups table and its pivot: auto-increment ids, every pivot row
      belongs to an existing group, and every group's creator is a member. */
  ghost predicate GroupTable(groups: seq<Group>, members: Memberships, next: GroupId) {
    (forall i :: 0 <= i < |groups| ==> groups[i].id < next) &&
    IncreasingGroupIds(groups) &&
    (forall k :: k in members ==> GroupExists(groups, k.0)) &&
    (forall i :: 0 <= i < |groups| ==> IsMember(members, groups[i].id, groups[i].createdBy))
  }

  /** The group_messages table: auto-increment ids, the foreign keys
      group_id, user_id and reply_to resolve, and the `type` column is set. */
  ghost predicate GroupMessageTable(msgs: seq<GroupMessage>, next: MessageId, groups: seq<Group>, users: seq<User>) {
    (forall i :: 0 <= i < |msgs| ==> msgs[i].id < next) &&
    IncreasingIds(msgs) &&
    (forall i :: 0 <= i < |msgs| ==>
      GroupExists(groups, msgs[i].groupId) && UserExists(users, msgs[i].userId) && msgs[i].kind.Some?) &&
    RepliesResolve(msgs)
  }

  /** The foreign keys of the messages still resolve once the groups table
      keeps every group id it had. */
  lemma GroupMessageTableMoreGroups(msgs: seq<GroupMessage>, next: MessageId, groups: seq<Group>,
                                    groups': seq<Group>, users: seq<User>)
    requires GroupMessageTable(msgs, next, groups, users)
    requires forall h :: GroupExists(groups, h) ==> GroupExists(groups', h)
    ensures GroupMessageTable(msgs, next, groups', users)
  {
  }

  class Database {
    var users: seq<User>
    var directMessages: seq<DirectMessage>
    var groups: seq<Group>
    var members: Memberships
    var groupMessages: seq<GroupMessage>
    var nextDirectId: MessageId
    var nextGroupId: GroupId
    var nextGroupMessageId: MessageId
    var outbox: seq<Broadcast>

    ghost predicate DirectValid()
      reads this`directMessages, this`nextDirectId
    {
      DirectTable(directMessages, nextDirectId)
    }

    ghost predicate GroupsValid()
      reads this`groups, this`members, this`nextGroupId
    {
      GroupTable(groups, members, nextGroupId)
    }

    ghost predicate GroupMessagesValid()
      reads this`groupMessages, this`nextGroupMessageId, this`groups, this`users
    {
      GroupMessageTable(groupMessages, nextGroupMessageId, groups, users)
    }

    ghost predicate Valid()
      reads this
    {
      UniqueUserIds(users) && DirectValid() && GroupsValid() && GroupMessagesValid()
    }

    /** An empty store over a users table. */
    constructor (users: seq<User>)
      requires UniqueUserIds(users)
      ensures Valid()
      ensures this.users == users && directMessages == [] && groups == [] && members == map[]
      ensures groupMessages == [] && outbox == []
    {
      this.users := users;
      directMessages, groups, members, groupMessages := [], [], map[], [];
      nextDirectId, nextGroupId, nextGroupMessageId := 1, 1, 1;
      outbox := [];
    }

    // Each write below installs new table contents that already satisfy
    // the table invariants.

    method SetMembers(ms: Memberships)
      requires Valid() && GroupTable(groups, ms, nextGroupId)
      modifies this`members
      ensures Valid() && members == ms
    {
      members := ms;
    }

    method SetGroups(gs: seq<Group>)
      requires Valid() && GroupTable(gs, members, nextGroupId)
      requires GroupMessageTable(groupMessages, nextGroupMessageId, gs, users)
      modifies this`groups
      ensures Valid() && groups == gs
    {
      groups := gs;
    }

    method InsertGroup(gs: seq<Group>, ms: Memberships, next: GroupId)
      requires Valid() && GroupTable(gs, ms, next)
      requires GroupMessageTable(groupMessages, nextGroupMessageId, gs, users)
      modifies this`groups, this`members, this`nextGroupId
      ensures Valid() && groups == gs && members == ms && nextGroupId == next
    {
      groups, members, nextGroupId := gs, ms, next;
    }

    method DeleteGroup(gs: seq<Group>, ms: Memberships, msgs: seq<GroupMessage>)
      requires Valid() && GroupTable(gs, ms, nextGroupId)
      requires GroupMessageTable(msgs, nextGroupMessageId, gs, users)
      modifies this`groups, this`members, this`groupMessages
      ensures Valid() && groups == gs && members == ms && groupMessages == msgs
    {
      groups, members, groupMessages := gs, ms, msgs;
    }

    method AppendGroupMessage(m: GroupMessage, b: Broadcast)
      requires Valid() && GroupMessageTable(groupMessages + [m], nextGroupMessageId + 1, groups, users)
      modifies this`groupMessages, this`nextGroupMessageId, this`outbox
      ensures Valid() && groupMessages == old(groupMessages) + [m] && nextGroupMessageId == old(nextGroupMessageId) + 1
      ensures outbox == old(outbox) + [b]
    {
      groupMessages, nextGroupMessageId := groupMessages + [m], nextGroupMessageId + 1;
      outbox := outbox + [b];
    }

    method ReplaceGroupMessages(msgs: seq<GroupMessage>)
      requires Valid() && GroupMessageTable(msgs, nextGroupMessageId, groups, users)
      modifies this`groupMessages
      ensures Valid() && groupMessages == msgs
    {
      groupMessages := msgs;
    }

    /** Record broadcasts issued, in order. */
    method Publish(bs: seq<Broadcast>)
      requires Valid()
      modifies this`outbox
      ensures Valid() && outbox == old(outbox) + bs
    {
      outbox := outbox + bs;
    }
  }
}
