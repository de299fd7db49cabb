/** The direct-message controller: opening a conversation (which marks the
    incoming messages delivered), sending a message, and the two batch
    transitions, each broadcasting one notice per row it changes. */
module ChatController {
  import opened Basics
  import opened DirectMessages
  import opened Events
  import opened Store

  /** The broadcasts a batch issues for the messages it transitioned: one
      per message, in order, a delivery notice for a delivery batch and a
      read notice for a read batch, each carrying its message. */
  function Announce(mark: Mark, ms: seq<DirectMessage>, toOthers: bool): (r: seq<Broadcast>)
    ensures |r| == |ms|
    ensures forall i :: 0 <= i < |r| ==>
      r[i].event == (match mark case Delivery => MessageDelivered(ms[i]) case Reading => MessageRead(ms[i])) &&
      r[i].toOthers == toOthers
  {
    seq(|ms|, i requires 0 <= i < |ms| =>
      Broadcast(if mark == Delivery then MessageDelivered(ms[i]) else MessageRead(ms[i]), toOthers))
  }

  /** Advancing rows in place keeps ids and creation times, hence the
      id order of the table and its created_at order when it has one. */
  lemma AdvancesKeepsTableOrder(s: seq<DirectMessage>, t: seq<DirectMessage>, next: MessageId)
    requires Advances(s, t)
    requires forall i :: 0 <= i < |s| ==> s[i].id < next
    requires forall i, j :: 0 <= i < j < |s| ==> s[i].id < s[j].id
    ensures forall i :: 0 <= i < |t| ==> t[i].id < next
    ensures forall i, j :: 0 <= i < j < |t| ==> t[i].id < t[j].id
    ensures Chronological(s) ==> Chronological(t)
  {
    assert forall i :: 0 <= i < |s| ==> t[i].id == s[i].id && t[i].createdAt == s[i].createdAt;
  }

  /** Select the rows from `from` to `to` awaiting the transition and
      update them one at a time, in table order, collecting each updated
      row for its notice. */
  method MarkRows(s0: seq<DirectMessage>, mark: Mark, from: UserId, to: UserId, now: Time)
    returns (s: seq<DirectMessage>, notices: seq<DirectMessage>)
    ensures s == MarkAll(mark, s0, from, to, now)
    ensures notices == Notices(mark, s0, from, to, now)
  {
    s := s0;
    notices := [];
    var i := 0;
    while i < |s|
      invariant 0 <= i <= |s| == |s0|
      invariant forall k :: 0 <= k < i ==> s[k] == (if Awaiting(mark, s0[k], from, to) then Apply(mark, s0[k], now) else s0[k])
      invariant forall k :: i <= k < |s0| ==> s[k] == s0[k]
      invariant notices == Notices(mark, s0[..i], from, to, now)
    {
      assert s0[..i + 1][..i] == s0[..i];
      if Awaiting(mark, s[i], from, to) {
        var updated := Apply(mark, s[i], now);
        s := s[i := updated];
        notices := notices + [updated];
      }
      i := i + 1;
    }
    assert s0[..i] == s0;
  }

  /** Run a batch transition on the messages table and broadcast one notice
      per transitioned message. */
  method MarkPending(db: Database, mark: Mark, from: UserId, to: UserId, now: Time, toOthers: bool)
    requires db.Valid()
    modifies db`directMessages, db`outbox
    ensures db.Valid()
    ensures db.directMessages == MarkAll(mark, old(db.directMessages), from, to, now)
    ensures db.outbox == old(db.outbox) + Announce(mark, Notices(mark, old(db.directMessages), from, to, now), toOthers)
  {
    var s, notices := MarkRows(db.directMessages, mark, from, to, now);
    PreservesReadImpliesDelivered(mark, db.directMessages, from, to, now);
    AdvancesKeepsTableOrder(db.directMessages, s, db.nextDirectId);
    db.directMessages := s;
    db.outbox := db.outbox + Announce(mark, notices, toOthers);
  }

  /** `show`: read the conversation ordered by created_at, then mark the
      messages the other user sent to the actor delivered. The conversation
      returned is the one read before the marking. A user id with no row is
      a 404. */
  method Show(db: Database, actor: UserId, user: UserId, now: Time) returns (r: Outcome, conversation: seq<DirectMessage>)
    requires db.Valid()
    modifies db`directMessages, db`outbox
    ensures db.Valid()
    ensures r == (if UserExists(db.users, user) then Ok else NotFound)
    ensures r == Ok ==> conversation == OrderedConversation(old(db.directMessages), actor, user)
    ensures r == Ok ==> db.directMessages == MarkAll(Delivery, old(db.directMessages), user, actor, now)
    ensures r == Ok ==> db.outbox == old(db.outbox) + Announce(Delivery, Notices(Delivery, old(db.directMessages), user, actor, now), false)
    ensures r == NotFound ==> conversation == [] && db.directMessages == old(db.directMessages) && db.outbox == old(db.outbox)
  {
    if !UserExists(db.users, user) {
      return NotFound, [];
    }
    conversation := OrderedConversation(db.directMessages, actor, user);
    MarkPending(db, Delivery, user, actor, now, false);
    r := Ok;
  }

  /** `store`: the receiver must name an existing user and the text must be
      filled; the message is created from the actor, undelivered and
      unread, and announced to the receiver. */
  method Send(db: Database, actor: UserId, receiverId: Option<UserId>, text: Option<string>, now: Time) returns (r: Outcome)
    requires db.Valid()
    modifies db`directMessages, db`nextDirectId, db`outbox
    ensures db.Valid()
    ensures r == (if receiverId.Some? && UserExists(db.users, receiverId.value) && Filled(text) then Ok else Invalid)
    ensures r == Ok ==>
      var m := DirectMessage(old(db.nextDirectId), actor, receiverId.value, text.value, now, None, false);
      db.directMessages == old(db.directMessages) + [m] &&
      db.outbox == old(db.outbox) + [Broadcast(MessageSent(m), false)]
    ensures r != Ok ==> db.directMessages == old(db.directMessages) && db.outbox == old(db.outbox)
    ensures db.nextDirectId == old(db.nextDirectId) + (if r == Ok then 1 else 0)
  {
    if receiverId.None? || !UserExists(db.users, receiverId.value) || !Filled(text) {
      return Invalid;
    }
    var m := DirectMessage(db.nextDirectId, actor, receiverId.value, text.value, now, None, false);
    db.directMessages := db.directMessages + [m];
    db.nextDirectId := db.nextDirectId + 1;
    db.outbox := db.outbox + [Broadcast(MessageSent(m), false)];
    r := Ok;
  }

  /** `markAsRead`: every message from `user` to the actor becomes read and
      delivered; one notice per message that was unread. */
  method MarkAsRead(db: Database, actor: UserId, user: UserId, now: Time) returns (r: Outcome)
    requires db.Valid()
    modifies db`directMessages, db`outbox
    ensures db.Valid()
    ensures r == (if UserExists(db.users, user) then Ok else NotFound)
    ensures r == Ok ==> db.directMessages == MarkAll(Reading, old(db.directMessages), user, actor, now)
    ensures r == Ok ==> db.outbox == old(db.outbox) + Announce(Reading, Notices(Reading, old(db.directMessages), user, actor, now), true)
    ensures r == Ok ==> forall m :: m in db.directMessages && Incoming(m, user, actor) ==> m.isRead && m.deliveredAt.Some?
    ensures r == NotFound ==> db.directMessages == old(db.directMessages) && db.outbox == old(db.outbox)
  {
    if !UserExists(db.users, user) {
      return NotFound;
    }
    MarkPending(db, Reading, user, actor, now, true);
    r := Ok;
  }

  /** `markAsDelivered`: every undelivered message from `user` to the actor
      gets a delivery time; one notice per such message. */
  method MarkAsDelivered(db: Database, actor: UserId, user: UserId, now: Time) returns (r: Outcome)
    requires db.Valid()
    modifies db`directMessages, db`outbox
    ensures db.Valid()
    ensures r == (if UserExists(db.users, user) then Ok else NotFound)
    ensures r == Ok ==> db.directMessages == MarkAll(Delivery, old(db.directMessages), user, actor, now)
    ensures r == Ok ==> db.outbox == old(db.outbox) + Announce(Delivery, Notices(Delivery, old(db.directMessages), user, actor, now), false)
    ensures r == Ok ==> forall m :: m in db.directMessages && Incoming(m, user, actor) ==> m.deliveredAt.Some?
    ensures r == NotFound ==> db.directMessages == old(db.directMessages) && db.outbox == old(db.outbox)
  {
    if !UserExists(db.users, user) {
      return NotFound;
    }
    // MessageDelivered does not use InteractsWithSockets, so the
    // `->toOthers()` of the source excludes no socket
    MarkPending(db, Delivery, user, actor, now, false);
    r := Ok;
  }

  /** The scenario of a message going through its whole life: sent, marked
      delivered, then read; the read notice still carries the delivery time
      set by the first transition. */
  lemma SentDeliveredRead(m: DirectMessage, t1: Time, t2: Time)
    requires m.deliveredAt.None? && !m.isRead
    ensures var d := MarkAll(Delivery, [m], m.senderId, m.receiverId, t1);
      var rd := MarkAll(Reading, d, m.senderId, m.receiverId, t2);
      Notices(Delivery, [m], m.senderId, m.receiverId, t1) == [m.(deliveredAt := Some(t1))] &&
      Notices(Reading, d, m.senderId, m.receiverId, t2) == [m.(deliveredAt := Some(t1), isRead := true)] &&
      rd == [m.(deliveredAt := Some(t1), isRead := true)]
  {
    var d := MarkAll(Delivery, [m], m.senderId, m.receiverId, t1);
    assert d == [m.(deliveredAt := Some(t1))];
    assert [m][..0] == [] && d[..0] == [];
  }
}
