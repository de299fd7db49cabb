/** The chat page's local message list (`useChatMessages`): copies of the
    stored messages of one conversation plus placeholders for messages
    being sent, reconciled with the server's answers. */
module ClientMessages {
  import opened Basics
  import opened DirectMessages

  /** A message id on the page: a stored message's id, or the `temp_...`
      string of a placeholder (the tag is made from the clock and a random
      number, both outside the model). */
  datatype ClientId = Stored(n: MessageId) | Temp(tag: string)

  /** The page-only `status` attribute; copies of stored rows have none. */
  datatype Status = NoStatus | Sending | Sent | Failed

  /** A message object of the list. */
  datatype ClientMessage = ClientMessage(
    id: ClientId,
    senderId: UserId,
    receiverId: UserId,
    body: string,
    status: Status,
    deliveredAt: Option<Time>,
    isRead: bool,
    createdAt: Time)

  /** The `updates` object of updateMessageStatus: every caller passes a
      status, the text and the sender. */
  datatype Patch = Patch(status: Status, body: string, senderId: UserId)

  /** The body of the `chat.store` request a send makes. */
  datatype StoreRequest = StoreRequest(receiverId: UserId, message: string)

  /** The copy of a stored row the page receives. */
  function FromRow(m: DirectMessage): (c: ClientMessage)
    ensures c.id == Stored(m.id) && c.status == NoStatus
    ensures c.senderId == m.senderId && c.receiverId == m.receiverId
    ensures c.deliveredAt == m.deliveredAt && c.isRead == m.isRead
  {
    ClientMessage(Stored(m.id), m.senderId, m.receiverId, m.body, NoStatus, m.deliveredAt, m.isRead, m.createdAt)
  }

  function Copies(rows: seq<DirectMessage>): (r: seq<ClientMessage>)
    ensures |r| == |rows| && forall i :: 0 <= i < |rows| ==> r[i] == FromRow(rows[i])
  {
    seq(|rows|, i requires 0 <= i < |rows| => FromRow(rows[i]))
  }

  /** The characters String.prototype.trim removes: white space and line
      terminators of ECMAScript, including the Unicode space separators. */
  predicate IsJsWhitespace(c: char) {
    ('\U{0009}' <= c <= '\U{000D}') || c == ' ' || c == '\U{00A0}' || c == '\U{1680}' ||
    ('\U{2000}' <= c <= '\U{200A}') || c == '\U{2028}' || c == '\U{2029}' || c == '\U{202F}' ||
    c == '\U{205F}' || c == '\U{3000}' || c == '\U{FEFF}'
  }

  /** `!text.trim()`: nothing but white space is left. */
  predicate Blank(text: string) {
    forall i :: 0 <= i < |text| ==> IsJsWhitespace(text[i])
  }

  /** The element findMessage accepts: the same id, or, when a text and a
      sender are given (both truthy), a placeholder still being sent with
      that text from that sender. */
  predicate Matches(m: ClientMessage, id: ClientId, text: string, sender: UserId) {
    m.id == id || (text != [] && sender != 0 && m.body == text && m.senderId == sender && m.status == Sending)
  }

  /** `findMessage`: the position of the first element, in list order, that
      matches by either rule; an id match further down does not take
      priority over an earlier placeholder. */
  function Find(s: seq<ClientMessage>, id: ClientId, text: string, sender: UserId): (r: Option<nat>)
    ensures r.None? <==> forall k :: 0 <= k < |s| ==> !Matches(s[k], id, text, sender)
    ensures r.Some? ==> r.value < |s| && Matches(s[r.value], id, text, sender)
    ensures r.Some? ==> forall k :: 0 <= k < r.value ==> !Matches(s[k], id, text, sender)
  {
    if s == [] then None
    else if Matches(s[0], id, text, sender) then Some(0)
    else
      var r := Find(s[1..], id, text, sender);
      assert forall k :: 1 <= k < |s| ==> s[k] == s[1..][k - 1];
      if r.None? then None else Some(r.value + 1)
  }

  /** `Object.assign(msg, updates)`. */
  function Assign(m: ClientMessage, p: Patch): (r: ClientMessage)
    ensures r.status == p.status && r.body == p.body && r.senderId == p.senderId
    ensures r.id == m.id && r.receiverId == m.receiverId && r.createdAt == m.createdAt
    ensures r.deliveredAt == m.deliveredAt && r.isRead == m.isRead
  {
    m.(status := p.status, body := p.body, senderId := p.senderId)
  }

  /** `updateMessageStatus`: the patch is merged into the element
      findMessage picks, looked up by id or by the patch's text and sender
      (the page's user when the patch names none); with no match the list
      stays as it was. */
  function Updated(s: seq<ClientMessage>, id: ClientId, p: Patch, auth: UserId): (r: seq<ClientMessage>)
    ensures |r| == |s|
    ensures var k := Find(s, id, p.body, if p.senderId != 0 then p.senderId else auth);
      (k.None? ==> r == s) &&
      (k.Some? ==> r[k.value] == Assign(s[k.value], p) && forall j :: 0 <= j < |s| && j != k.value ==> r[j] == s[j])
  {
    var k := Find(s, id, p.body, if p.senderId != 0 then p.senderId else auth);
    if k.None? then s else s[k.value := Assign(s[k.value], p)]
  }

  /** A placeholder of `temp`: still being sent, with its text and sender. */
  predicate IsPlaceholderOf(m: ClientMessage, temp: ClientMessage) {
    m.body == temp.body && m.senderId == temp.senderId && m.status == Sending
  }

  /** No placeholder of `temp` comes before position k. */
  predicate FirstPlaceholder(s: seq<ClientMessage>, temp: ClientMessage, k: int) {
    forall j :: 0 <= j < k && j < |s| ==> !IsPlaceholderOf(s[j], temp)
  }

  /** `replaceTemporaryMessage`: the first placeholder with the text and
      sender of `temp` becomes the stored message, marked sent, with its own
      delivery time and read flag; without such a placeholder nothing
      changes. */
  function Replaced(s: seq<ClientMessage>, temp: ClientMessage, stored: ClientMessage): (r: seq<ClientMessage>)
    ensures |r| == |s|
    ensures (forall k :: 0 <= k < |s| ==> !IsPlaceholderOf(s[k], temp)) ==> r == s
    ensures forall k :: 0 <= k < |s| && IsPlaceholderOf(s[k], temp) && FirstPlaceholder(s, temp, k) ==>
      r == s[k := stored.(status := Sent)]
  {
    if s == [] then []
    else if IsPlaceholderOf(s[0], temp) then [stored.(status := Sent)] + s[1..]
    else
      var rest := Replaced(s[1..], temp, stored);
      assert forall k :: 1 <= k < |s| ==> s[k] == s[1..][k - 1];
      [s[0]] + rest
  }

  /** Replacing touches no element but a placeholder of `temp`. */
  lemma {:induction false} ReplacedKeepsOthers(s: seq<ClientMessage>, temp: ClientMessage, stored: ClientMessage)
    ensures forall k :: 0 <= k < |s| && !IsPlaceholderOf(s[k], temp) ==> Replaced(s, temp, stored)[k] == s[k]
  {
    if s != [] && !IsPlaceholderOf(s[0], temp) {
      ReplacedKeepsOthers(s[1..], temp, stored);
      assert Replaced(s, temp, stored) == [s[0]] + Replaced(s[1..], temp, stored);
    }
  }

  /** The placeholder `sendMessage` appends. */
  function Placeholder(tag: string, auth: UserId, user: UserId, text: string, now: Time): (c: ClientMessage)
    ensures c.id == Temp(tag) && c.status == Sending && c.deliveredAt.None? && !c.isRead
    ensures Matches(c, Temp(tag), text, auth)
    ensures forall t :: IsPlaceholderOf(c, t) <==> t.body == text && t.senderId == auth
  {
    ClientMessage(Temp(tag), auth, user, text, Sending, None, false, now)
  }

  /** A message of the reply the page may adopt: the sent text, from the
      page's user, with an id the list does not hold yet. */
  predicate Adoptable(s: seq<ClientMessage>, m: ClientMessage, text: string, auth: UserId) {
    m.body == text && m.senderId == auth && forall e :: e in s ==> e.id != m.id
  }

  /** No message of the reply before position k is adoptable. */
  predicate NoneAdoptableBefore(s: seq<ClientMessage>, page: seq<ClientMessage>, k: int, text: string, auth: UserId) {
    forall j :: 0 <= j < k && j < |page| ==> !Adoptable(s, page[j], text, auth)
  }

  /** The message of a successful reply that the page adopts: the first
      adoptable one, in the reply's order. */
  function Adopted(s: seq<ClientMessage>, page: seq<ClientMessage>, text: string, auth: UserId): (r: Option<ClientMessage>)
    ensures r.Some? ==> r.value in page && r.value.body == text && r.value.senderId == auth
    ensures r.Some? ==> forall m :: m in s ==> m.id != r.value.id
    ensures r.Some? ==> exists k :: 0 <= k < |page| && page[k] == r.value && NoneAdoptableBefore(s, page, k, text, auth)
    ensures r.None? <==>
      forall m :: m in page && m.body == text && m.senderId == auth ==> exists e :: e in s && e.id == m.id
  {
    if page == [] then None
    else if Adoptable(s, page[0], text, auth) then
      Some(page[0])
    else
      var r := Adopted(s, page[1..], text, auth);
      assert r.Some? ==> exists k :: 0 <= k < |page| && page[k] == r.value && NoneAdoptableBefore(s, page, k, text, auth) by {
        if r.Some? {
          var k :| 0 <= k < |page[1..]| && page[1..][k] == r.value && NoneAdoptableBefore(s, page[1..], k, text, auth);
          assert page[k + 1] == r.value;
          forall j | 0 <= j < k + 1 ensures !Adoptable(s, page[j], text, auth) {
            if j > 0 {
              assert page[j] == page[1..][j - 1];
            }
          }
        }
      }
      r
  }

  /** The list after the `chat.store` request of a send succeeded: the
      adopted message replaces the placeholder, or, when the reply has no
      messages or none to adopt, the placeholder is marked sent. */
  function AfterSuccess(s: seq<ClientMessage>, tag: string, text: string, auth: UserId, user: UserId, now: Time,
                        page: Option<seq<ClientMessage>>): (r: seq<ClientMessage>)
    ensures |r| == |s|
    // only the placeholder of this send, or one still being sent, changes
    ensures forall k :: 0 <= k < |s| && s[k].id != Temp(tag) && s[k].status != Sending ==> r[k] == s[k]
  {
    var adopted := if page.None? then None else Adopted(s, page.value, text, auth);
    if adopted.Some? then
      ReplacedKeepsOthers(s, Placeholder(tag, auth, user, text, now), adopted.value);
      Replaced(s, Placeholder(tag, auth, user, text, now), adopted.value)
    else Updated(s, Temp(tag), Patch(Sent, text, auth), auth)
  }

  /** Some message from `from` to `to` still lacks a delivery time
      (Delivery) or the read flag (Reading). */
  predicate Pending(mark: Mark, s: seq<ClientMessage>, from: UserId, to: UserId) {
    exists i :: 0 <= i < |s| && s[i].senderId == from && s[i].receiverId == to &&
      match mark
      case Delivery => s[i].deliveredAt.None?
      case Reading => !s[i].isRead
  }

  /** On a list of copies of stored rows, the page posts a batch exactly
      when the server would transition some message of it. */
  lemma PendingMatchesServer(mark: Mark, rows: seq<DirectMessage>, from: UserId, to: UserId)
    ensures Pending(mark, Copies(rows), from, to) <==> exists i :: 0 <= i < |rows| && Awaiting(mark, rows[i], from, to)
  {
    var c := Copies(rows);
    if Pending(mark, c, from, to) {
      var i :| 0 <= i < |c| && c[i].senderId == from && c[i].receiverId == to &&
        match mark
        case Delivery => c[i].deliveredAt.None?
        case Reading => !c[i].isRead;
      assert Awaiting(mark, rows[i], from, to);
    }
  }

  /** Once the server applied a batch, a page loaded with the new rows does
      not post it again. */
  lemma NoRepostAfterBatch(mark: Mark, rows: seq<DirectMessage>, from: UserId, to: UserId, now: Time)
    ensures !Pending(mark, Copies(MarkAll(mark, rows, from, to, now)), from, to)
  {
    PendingMatchesServer(mark, MarkAll(mark, rows, from, to, now), from, to);
  }

  /** A send to a list holding no message with the placeholder's id and no
      other placeholder with its text, which then fails, leaves one failed
      placeholder after the earlier messages. */
  lemma SendThenFail(s: seq<ClientMessage>, tag: string, auth: UserId, user: UserId, text: string, now: Time)
    requires auth != 0 && text != []
    requires forall m :: m in s ==> !Matches(m, Temp(tag), text, auth)
    ensures Updated(s + [Placeholder(tag, auth, user, text, now)], Temp(tag), Patch(Failed, text, auth), auth) ==
      s + [Placeholder(tag, auth, user, text, now).(status := Failed)]
  {
    var t := s + [Placeholder(tag, auth, user, text, now)];
    assert t[|s|].id == Temp(tag);
    forall k | 0 <= k < |s| ensures !Matches(t[k], Temp(tag), text, auth) {
      assert t[k] == s[k] && s[k] in s;
    }
  }

  /** A send whose reply holds no message with the sent text (the server
      stored the text altered, or not at all) leaves the placeholder where
      it was, marked sent. */
  lemma SendThenFallBack(s: seq<ClientMessage>, tag: string, auth: UserId, user: UserId, text: string, now: Time,
                         page: seq<ClientMessage>)
    requires auth != 0 && text != []
    requires forall m :: m in s ==> !Matches(m, Temp(tag), text, auth)
    requires forall m :: m in page ==> m.body != text
    ensures AfterSuccess(s + [Placeholder(tag, auth, user, text, now)], tag, text, auth, user, now, Some(page)) ==
      s + [Placeholder(tag, auth, user, text, now).(status := Sent)]
  {
    var t := s + [Placeholder(tag, auth, user, text, now)];
    assert t[|s|].id == Temp(tag);
    forall k | 0 <= k < |s| ensures !Matches(t[k], Temp(tag), text, auth) {
      assert t[k] == s[k] && s[k] in s;
    }
  }

  /** A send whose reply holds the stored copy of the message, to a list
      with no older placeholder of the same text, ends with that copy,
      marked sent, in the placeholder's place. */
  lemma SendThenAdopt(s: seq<ClientMessage>, tag: string, auth: UserId, user: UserId, text: string, now: Time,
                      stored: ClientMessage)
    requires forall m :: m in s ==> !IsPlaceholderOf(m, Placeholder(tag, auth, user, text, now))
    requires forall m :: m in s ==> m.id != stored.id
    requires stored.body == text && stored.senderId == auth && stored.id != Temp(tag)
    ensures AfterSuccess(s + [Placeholder(tag, auth, user, text, now)], tag, text, auth, user, now, Some([stored])) ==
      s + [stored.(status := Sent)]
  {
    var p := Placeholder(tag, auth, user, text, now);
    var t := s + [p];
    assert forall k :: 0 <= k < |s| ==> t[k] == s[k] && s[k] in s;
    assert Adopted(t, [stored], text, auth) == Some(stored);
    assert t[|s| := stored.(status := Sent)] == s + [stored.(status := Sent)];
  }

  /** The list of the chat page, as a reactive object. */
  class ChatList {
    var messages: seq<ClientMessage>
    /** The other user of the conversation, and the page's own user. */
    const user: UserId
    const auth: UserId

    /** The list starts as copies of the conversation's stored rows. */
    constructor (rows: seq<DirectMessage>, user: UserId, auth: UserId)
      ensures messages == Copies(rows) && this.user == user && this.auth == auth
    {
      messages := Copies(rows);
      this.user := user;
      this.auth := auth;
    }

    /** `addMessage`: one copy at the end, the earlier elements unchanged. */
    method AddMessage(m: ClientMessage)
      modifies this
      ensures messages == old(messages) + [m]
    {
      messages := messages + [m];
    }

    /** `findMessage`. */
    method FindMessage(id: ClientId, text: string, sender: UserId) returns (r: Option<ClientMessage>)
      ensures r.Some? <==> Find(messages, id, text, sender).Some?
      ensures r.Some? ==> r.value == messages[Find(messages, id, text, sender).value]
    {
      var k := Find(messages, id, text, sender);
      r := if k.None? then None else Some(messages[k.value]);
    }

    method UpdateMessageStatus(id: ClientId, p: Patch)
      modifies this
      ensures messages == Updated(old(messages), id, p, auth)
    {
      messages := Updated(messages, id, p, auth);
    }

    method ReplaceTemporaryMessage(temp: ClientMessage, stored: ClientMessage)
      modifies this
      ensures messages == Replaced(old(messages), temp, stored)
    {
      messages := Replaced(messages, temp, stored);
    }

    /** `sendMessage`: a blank text does nothing; otherwise a placeholder
      goes at the end of the list and the text is posted to the other
      user. */
    method SendMessage(text: string, tag: string, now: Time) returns (request: Option<StoreRequest>)
      modifies this
      ensures Blank(text) ==> request.None? && messages == old(messages)
      ensures !Blank(text) ==>
        request == Some(StoreRequest(user, text)) &&
        messages == old(messages) + [Placeholder(tag, auth, user, text, now)]
    {
      if Blank(text) {
        return None;
      }
      AddMessage(Placeholder(tag, auth, user, text, now));
      request := Some(StoreRequest(user, text));
    }

    /** The success callback of that request; `page` is the reply's
      `messages` prop, when it has one. */
    method OnSendSuccess(tag: string, text: string, now: Time, page: Option<seq<ClientMessage>>)
      modifies this
      ensures messages == AfterSuccess(old(messages), tag, text, auth, user, now, page)
    {
      var adopted := if page.None? then None else Adopted(messages, page.value, text, auth);
      if adopted.Some? {
        ReplaceTemporaryMessage(Placeholder(tag, auth, user, text, now), adopted.value);
      } else {
        UpdateMessageStatus(Temp(tag), Patch(Sent, text, auth));
      }
    }

    /** The error callback: the placeholder is marked failed. */
    method OnSendError(tag: string, text: string)
      modifies this
      ensures messages == Updated(old(messages), Temp(tag), Patch(Failed, text, auth), auth)
    {
      UpdateMessageStatus(Temp(tag), Patch(Failed, text, auth));
    }

    /** `markAsDelivered`: posts only when some message from the other user
      to this one has no delivery time. */
    method MarkAsDelivered() returns (post: bool)
      ensures post <==>
        exists i :: 0 <= i < |messages| && messages[i].senderId == user && messages[i].receiverId == auth &&
          messages[i].deliveredAt.None?
    {
      post := Pending(Delivery, messages, user, auth);
    }

    /** `markAsRead`: posts only when some message from the other user to
      this one is unread. */
    method MarkAsRead() returns (post: bool)
      ensures post <==>
        exists i :: 0 <= i < |messages| && messages[i].senderId == user && messages[i].receiverId == auth &&
          !messages[i].isRead
    {
      post := Pending(Reading, messages, user, auth);
    }
  }
}
