/** The chat list page: every other user with the last direct message
    exchanged with the actor, and the actor's groups with their latest
    message by creation time. */
module UserController {
  import opened Basics
  import opened DirectMessages
  import opened GroupMessages
  import opened GroupModel
  import opened Store
  import opened Ordering
  import opened GroupController

  /** One user of the page: the last message and its time are null when
      the two users have exchanged nothing. */
  datatype UserEntry = UserEntry(id: UserId, name: string, lastMessage: Option<string>, lastMessageAt: Option<Time>)

  /** The page's two lists. */
  datatype Page = Page(users: seq<UserEntry>, groups: seq<GroupEntry>)

  function IdOf(u: User): int {
    u.id
  }

  function SentAt(m: DirectMessage): int {
    m.createdAt
  }

  function PostedAt(m: GroupMessage): int {
    m.createdAt
  }

  /** Two rows of a users table with unique ids and the same id are the
      same row. */
  lemma SameIdSameUser(users: seq<User>, a: User, b: User)
    requires UniqueUserIds(users) && a in users && b in users && a.id == b.id
    ensures a == b
  {
    var i :| 0 <= i < |users| && users[i] == a;
    var j :| 0 <= j < |users| && users[j] == b;
    assert i == j;
  }

  /** `User::where('id', '!=', $authUserId)`, in table order. */
  function OthersInTableOrder(users: seq<User>, actor: UserId): (r: seq<User>)
    ensures forall u :: u in r <==> u in users && u.id != actor
    ensures UniqueUserIds(users) ==> UniqueUserIds(r)
  {
    if users == [] then []
    else
      var rest := OthersInTableOrder(users[1..], actor);
      assert UniqueUserIds(users) ==> forall u :: u in rest ==> u.id != users[0].id by {
        if UniqueUserIds(users) {
          forall u | u in rest ensures u.id != users[0].id {
            var k :| 0 <= k < |users[1..]| && users[1..][k] == u;
            assert users[k + 1] == u;
          }
        }
      }
      if users[0].id != actor then [users[0]] + rest else rest
  }

  /** The other users, ordered by id descending: every user but the
      actor, and no one else. */
  function OtherUsers(users: seq<User>, actor: UserId): (r: seq<User>)
    ensures forall u :: u in r <==> u in users && u.id != actor
    ensures SortedDesc(r, IdOf)
  {
    var others := OthersInTableOrder(users, actor);
    assert forall u :: u in multiset(others) <==> u in others;
    SortDesc(others, IdOf)
  }

  /** With unique ids the order is strict: each other user is listed once. */
  lemma OtherUsersStrictlyDescending(users: seq<User>, actor: UserId)
    requires UniqueUserIds(users)
    ensures var r := OtherUsers(users, actor);
      forall i, j :: 0 <= i < j < |r| ==> r[i].id > r[j].id
  {
    var others := OthersInTableOrder(users, actor);
    var r := OtherUsers(users, actor);
    SortDescKeepsDistinct(others, IdOf);
    assert Distinct(others);
    forall i, j | 0 <= i < j < |r| ensures r[i].id > r[j].id {
      assert r[i] in r && r[j] in r;
      if r[i].id == r[j].id {
        SameIdSameUser(users, r[i], r[j]);
      }
    }
  }

  /** The last message between `a` and `b` (`orderBy('created_at',
      'desc')->first()`): none when they have exchanged nothing, otherwise
      one of their messages, in either direction, with no later one. */
  function LastMessage(s: seq<DirectMessage>, a: UserId, b: UserId): (r: Option<DirectMessage>)
    ensures r.None? <==> forall m :: m in s ==> !Between(m, a, b)
    ensures r.Some? ==> r.value in s && Between(r.value, a, b)
    ensures r.Some? ==> forall m :: m in s && Between(m, a, b) ==> m.createdAt <= r.value.createdAt
  {
    var c := Conversation(s, a, b);
    assert c != [] ==> c[0] in c;
    MaxBy(c, SentAt)
  }

  /** Both users' pages show the same last message for their
      conversation. */
  lemma LastMessageShared(s: seq<DirectMessage>, a: UserId, b: UserId)
    ensures LastMessage(s, a, b) == LastMessage(s, b, a)
  {
    ConversationSymmetric(s, a, b);
  }

  /** On a chronological table the last message is as late as the last row
      of the conversation. */
  lemma LastMessageIsLastRow(s: seq<DirectMessage>, a: UserId, b: UserId)
    requires Chronological(s) && Conversation(s, a, b) != []
    ensures var c := Conversation(s, a, b);
      LastMessage(s, a, b).value.createdAt == c[|c| - 1].createdAt
  {
    var c := Conversation(s, a, b);
    var m := LastMessage(s, a, b).value;
    assert c[|c| - 1] in c;
    var k :| 0 <= k < |c| && c[k] == m;
  }

  /** The entry of user `u` on the page of `actor`. */
  function Entry(s: seq<DirectMessage>, actor: UserId, u: User): (e: UserEntry)
    ensures ListsUser(e, u, s, actor)
  {
    var last := LastMessage(s, actor, u.id);
    UserEntry(u.id, u.name,
              if last.None? then None else Some(last.value.body),
              if last.None? then None else Some(last.value.createdAt))
  }

  /** `e` is what the page shows about `u`: its id and name, and the text
      and time of a latest message between the two users, both null
      exactly when there is none. */
  ghost predicate ListsUser(e: UserEntry, u: User, s: seq<DirectMessage>, actor: UserId) {
    e.id == u.id && e.name == u.name &&
    (e.lastMessage.None? <==> e.lastMessageAt.None?) &&
    (e.lastMessage.None? <==> forall m :: m in s ==> !Between(m, actor, u.id)) &&
    (e.lastMessage.Some? ==>
      exists m :: m in s && Between(m, actor, u.id) &&
        e.lastMessage.value == m.body && e.lastMessageAt.value == m.createdAt &&
        forall o :: o in s && Between(o, actor, u.id) ==> o.createdAt <= m.createdAt)
  }

  /** `index`: the users list and the groups list of the page. */
  function Index(users: seq<User>, s: seq<DirectMessage>, groups: seq<Group>, ms: Memberships,
                 msgs: seq<GroupMessage>, actor: UserId): (p: Page)
    ensures |p.users| == |OtherUsers(users, actor)|
    ensures |p.groups| == |MemberGroups(groups, ms, actor)|
  {
    var us := OtherUsers(users, actor);
    var gs := MemberGroups(groups, ms, actor);
    Page(seq(|us|, i requires 0 <= i < |us| => Entry(s, actor, us[i])),
         seq(|gs|, i requires 0 <= i < |gs| => Summary(gs[i], ms, users, actor, MaxBy(Messages(msgs, gs[i].id), PostedAt))))
  }

  /** Entry i of the users list shows the i-th other user by descending id
      with their last message. */
  lemma IndexListsOtherUsers(users: seq<User>, s: seq<DirectMessage>, groups: seq<Group>, ms: Memberships,
                             msgs: seq<GroupMessage>, actor: UserId)
    ensures var p := Index(users, s, groups, ms, msgs, actor);
      var us := OtherUsers(users, actor);
      forall i :: 0 <= i < |p.users| ==> ListsUser(p.users[i], us[i], s, actor)
  {
    var p := Index(users, s, groups, ms, msgs, actor);
    var us := OtherUsers(users, actor);
    forall i | 0 <= i < |p.users| ensures ListsUser(p.users[i], us[i], s, actor) {
      var last := LastMessage(s, actor, us[i].id);
      if last.Some? {
        assert p.users[i].lastMessage.value == last.value.body;
      }
    }
  }

  /** On a valid store, entry i of the groups list shows the i-th of the
      actor's groups, most recently updated first, with its latest message
      by creation time. */
  lemma IndexListsMemberGroups(users: seq<User>, s: seq<DirectMessage>, groups: seq<Group>, ms: Memberships,
                               msgs: seq<GroupMessage>, actor: UserId, nextMessage: MessageId)
    requires GroupMessageTable(msgs, nextMessage, groups, users)
    ensures var p := Index(users, s, groups, ms, msgs, actor);
      var gs := MemberGroups(groups, ms, actor);
      forall i :: 0 <= i < |p.groups| ==> ListsGroup(p.groups[i], gs[i], ms, msgs, users, actor, PostedAt)
  {
    var p := Index(users, s, groups, ms, msgs, actor);
    var gs := MemberGroups(groups, ms, actor);
    forall m | m in msgs ensures UserExists(users, m.userId) {
      var k :| 0 <= k < |msgs| && msgs[k] == m;
    }
    forall i | 0 <= i < |p.groups| ensures ListsGroup(p.groups[i], gs[i], ms, msgs, users, actor, PostedAt) {
      SummaryListsGroup(gs[i], ms, msgs, users, actor, PostedAt, MaxBy(Messages(msgs, gs[i].id), PostedAt));
    }
  }
}
