/** The direct-message table and the rules of its delivery state machine
    (sent -> delivered -> read), stated over a sequence of rows. The
    controller that runs these transitions one row at a time is in
    ChatController. */
module DirectMessages {
  import opened Basics
  import opened Ordering

  /** A row of the messages table. `deliveredAt == None` is SQL NULL. */
  datatype DirectMessage = DirectMessage(
    id: MessageId,
    senderId: UserId,
    receiverId: UserId,
    body: string,
    createdAt: Time,
    deliveredAt: Option<Time>,
    isRead: bool)

  /** The two batch transitions of the controller. */
  datatype Mark = Delivery | Reading

  /** `m` was sent by `from` to `to`. */
  predicate Incoming(m: DirectMessage, from: UserId, to: UserId) {
    m.senderId == from && m.receiverId == to
  }

  /** The selection predicate of a batch: messages from `from` to `to`
      with a null delivered_at (Delivery) or with is_read false (Reading). */
  predicate Awaiting(mark: Mark, m: DirectMessage, from: UserId, to: UserId)
    ensures Awaiting(mark, m, from, to) ==> forall now :: Apply(mark, m, now) != m
  {
    Incoming(m, from, to) &&
    match mark
    case Delivery => m.deliveredAt.None?
    case Reading => !m.isRead
  }

  /** The update a batch applies to one selected row: Delivery sets
      delivered_at to now; Reading sets is_read and keeps an existing
      delivered_at, filling in now only when it is null. */
  function Apply(mark: Mark, m: DirectMessage, now: Time): (r: DirectMessage)
    ensures r.(deliveredAt := m.deliveredAt, isRead := m.isRead) == m
    ensures r.deliveredAt.Some?
    ensures mark == Reading ==> r.isRead && (m.deliveredAt.Some? ==> r.deliveredAt == m.deliveredAt)
    ensures mark == Delivery ==> r.isRead == m.isRead && r.deliveredAt == Some(now)
  {
    match mark
    case Delivery => m.(deliveredAt := Some(now))
    case Reading => m.(isRead := true, deliveredAt := Some(m.deliveredAt.GetOr(now)))
  }

  /** Every read message has a delivery time. */
  predicate ReadImpliesDelivered(s: seq<DirectMessage>) {
    forall i :: 0 <= i < |s| ==> s[i].isRead ==> s[i].deliveredAt.Some?
  }

  /** `t` is `s` with some messages moved forward in the state machine:
      ids, parties, text and times are kept, a delivery time once set is
      kept, and a read message stays read. */
  predicate Advances(s: seq<DirectMessage>, t: seq<DirectMessage>) {
    |t| == |s| &&
    forall i :: 0 <= i < |s| ==>
      t[i].(deliveredAt := s[i].deliveredAt, isRead := s[i].isRead) == s[i] &&
      (s[i].deliveredAt.Some? ==> t[i].deliveredAt == s[i].deliveredAt) &&
      (s[i].isRead ==> t[i].isRead)
  }

  /** The table after one batch transition by the receiver `to` on the
      messages from `from`. */
  function MarkAll(mark: Mark, s: seq<DirectMessage>, from: UserId, to: UserId, now: Time): (r: seq<DirectMessage>)
    ensures Advances(s, r)
    // only the selected batch changes
    ensures forall i :: 0 <= i < |s| && !Awaiting(mark, s[i], from, to) ==> r[i] == s[i]
    // nothing of the batch is left selected
    ensures forall i :: 0 <= i < |r| ==> !Awaiting(mark, r[i], from, to)
    // on a table where read implies delivered, a read batch leaves every
    // message of the batch read and delivered
    ensures mark == Reading && ReadImpliesDelivered(s) ==> forall i :: 0 <= i < |r| && Incoming(s[i], from, to) ==>
      r[i].isRead && r[i].deliveredAt.Some?
  {
    seq(|s|, i requires 0 <= i < |s| => if Awaiting(mark, s[i], from, to) then Apply(mark, s[i], now) else s[i])
  }

  /** The messages a batch transitions, as they are after the update, in
      table order: one notification is broadcast for each. */
  function Notices(mark: Mark, s: seq<DirectMessage>, from: UserId, to: UserId, now: Time): (r: seq<DirectMessage>)
    ensures |r| <= |s|
  {
    if s == [] then []
    else
      var last := s[|s| - 1];
      Notices(mark, s[..|s| - 1], from, to, now) +
        (if Awaiting(mark, last, from, to) then [Apply(mark, last, now)] else [])
  }

  /** Number of positions at which `s` and `t` differ. */
  function ChangedCount(s: seq<DirectMessage>, t: seq<DirectMessage>): nat
    requires |s| == |t|
  {
    if s == [] then 0
    else ChangedCount(s[..|s| - 1], t[..|t| - 1]) + (if s[|s| - 1] != t[|t| - 1] then 1 else 0)
  }

  lemma MarkAllPrefix(mark: Mark, s: seq<DirectMessage>, from: UserId, to: UserId, now: Time, n: nat)
    requires n <= |s|
    ensures MarkAll(mark, s, from, to, now)[..n] == MarkAll(mark, s[..n], from, to, now)
  {
  }

  /** Exactly one notification per message whose row the batch changed. */
  lemma {:induction false} OneNoticePerTransition(mark: Mark, s: seq<DirectMessage>, from: UserId, to: UserId, now: Time)
    ensures |Notices(mark, s, from, to, now)| == ChangedCount(s, MarkAll(mark, s, from, to, now))
  {
    if s != [] {
      var n := |s| - 1;
      var r := MarkAll(mark, s, from, to, now);
      MarkAllPrefix(mark, s, from, to, now, n);
      assert r[..n] == MarkAll(mark, s[..n], from, to, now);
      OneNoticePerTransition(mark, s[..n], from, to, now);
    }
  }

  /** Every notification carries a transitioned message of the batch. */
  lemma {:induction false} NoticesAreOfBatch(mark: Mark, s: seq<DirectMessage>, from: UserId, to: UserId, now: Time)
    ensures forall m :: m in Notices(mark, s, from, to, now) ==>
      Incoming(m, from, to) && m.deliveredAt.Some? && (mark == Reading ==> m.isRead)
  {
    if s != [] {
      NoticesAreOfBatch(mark, s[..|s| - 1], from, to, now);
    }
  }

  /** A batch with nothing selected notifies nothing. */
  lemma {:induction false} NoNoticesWhenNothingAwaits(mark: Mark, s: seq<DirectMessage>, from: UserId, to: UserId, now: Time)
    requires forall i :: 0 <= i < |s| ==> !Awaiting(mark, s[i], from, to)
    ensures Notices(mark, s, from, to, now) == []
  {
    if s != [] {
      NoNoticesWhenNothingAwaits(mark, s[..|s| - 1], from, to, now);
    }
  }

  /** Running a batch a second time (at any later time) changes nothing and
      notifies nothing. */
  lemma Idempotent(mark: Mark, s: seq<DirectMessage>, from: UserId, to: UserId, now: Time, later: Time)
    ensures MarkAll(mark, MarkAll(mark, s, from, to, now), from, to, later) == MarkAll(mark, s, from, to, now)
    ensures Notices(mark, MarkAll(mark, s, from, to, now), from, to, later) == []
  {
    NoNoticesWhenNothingAwaits(mark, MarkAll(mark, s, from, to, now), from, to, later);
  }

  /** Neither batch can break "read implies delivered". */
  lemma PreservesReadImpliesDelivered(mark: Mark, s: seq<DirectMessage>, from: UserId, to: UserId, now: Time)
    requires ReadImpliesDelivered(s)
    ensures ReadImpliesDelivered(MarkAll(mark, s, from, to, now))
  {
  }

  /** A message of the conversation between `a` and `b`, in either direction. */
  predicate Between(m: DirectMessage, a: UserId, b: UserId) {
    Incoming(m, a, b) || Incoming(m, b, a)
  }

  /** Rows are in non-decreasing created_at order. */
  predicate Chronological(s: seq<DirectMessage>) {
    forall i, j :: 0 <= i < j < |s| ==> s[i].createdAt <= s[j].createdAt
  }

  /** The conversation between `a` and `b`: the messages between them in
      either direction, in table order. */
  function Conversation(s: seq<DirectMessage>, a: UserId, b: UserId): (r: seq<DirectMessage>)
    ensures forall m :: m in r <==> m in s && Between(m, a, b)
    ensures Chronological(s) ==> Chronological(r)
    ensures |r| <= |s|
  {
    if s == [] then []
    else
      var rest := Conversation(s[..|s| - 1], a, b);
      var last := s[|s| - 1];
      assert forall m :: m in s[..|s| - 1] ==> m in s;
      assert Chronological(s) ==> forall m :: m in s[..|s| - 1] ==> m.createdAt <= last.createdAt;
      if Between(last, a, b) then rest + [last] else rest
  }

  function CreatedAt(m: DirectMessage): int {
    m.createdAt
  }

  /** The conversation as `show` reads it: the messages between the two
      users, ordered by created_at; messages created at the same time come
      in any order. */
  function OrderedConversation(s: seq<DirectMessage>, a: UserId, b: UserId): (r: seq<DirectMessage>)
    ensures Chronological(r)
    ensures multiset(r) == multiset(Conversation(s, a, b))
    ensures forall m :: m in r <==> m in s && Between(m, a, b)
  {
    var c := Conversation(s, a, b);
    var r := SortAsc(c, CreatedAt);
    assert forall m :: m in r <==> m in multiset(c);
    r
  }

  /** Which of the two users is named first does not matter. */
  lemma {:induction false} ConversationSymmetric(s: seq<DirectMessage>, a: UserId, b: UserId)
    ensures Conversation(s, a, b) == Conversation(s, b, a)
  {
    if s != [] {
      ConversationSymmetric(s[..|s| - 1], a, b);
    }
  }
}
