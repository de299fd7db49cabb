/** The delivery indicator shown next to a message of the page's own user
    (`getMessageStatus`) and the icon set it indexes (`statusIcons`). */
module ChatHelpers {
  import opened Basics
  import opened DirectMessages
  import opened ClientMessages

  /** The keys of `statusIcons`; the SVG markup itself is not modelled. */
  const StatusIconKeys: set<string> := {"sending", "sent", "delivered", "read", "failed"}

  /** `getMessageStatus`: no indicator on the other user's messages; on
      one's own, a failure shows first, then read, then delivered, then an
      explicit "sending", and "sent" otherwise. */
  function MessageStatus(m: ClientMessage, auth: UserId): (r: Option<string>)
    ensures r.None? <==> m.senderId != auth
    ensures r.Some? ==> r.value in StatusIconKeys
    ensures r == Some("failed") <==> m.senderId == auth && m.status == Failed
    ensures r == Some("read") <==> m.senderId == auth && m.status != Failed && m.isRead
    ensures r == Some("delivered") <==> m.senderId == auth && m.status != Failed && !m.isRead && m.deliveredAt.Some?
    ensures r == Some("sending") <==>
      m.senderId == auth && m.status == Sending && !m.isRead && m.deliveredAt.None?
  {
    if m.senderId != auth then None
    else if m.status == Failed then Some("failed")
    else if m.isRead then Some("read")
    else if m.deliveredAt.Some? then Some("delivered")
    else if m.status == Sent then Some("sent")
    else if m.status == Sending then Some("sending")
    else Some("sent")
  }

  /** The indicator of a copy of one's own stored message follows the
      server's state machine: read, else delivered, else sent. */
  lemma StoredMessageStatus(row: DirectMessage, auth: UserId)
    requires row.senderId == auth
    ensures MessageStatus(FromRow(row), auth) ==
      Some(if row.isRead then "read" else if row.deliveredAt.Some? then "delivered" else "sent")
  {
  }

  /** How far along sent -> delivered -> read an indicator is. */
  function Progress(indicator: Option<string>): int {
    if indicator == Some("read") then 2 else if indicator == Some("delivered") then 1 else 0
  }

  /** As the server moves one's own messages forward, the indicator of each
      reloaded copy never moves back. */
  lemma StatusNeverRegresses(s: seq<DirectMessage>, t: seq<DirectMessage>, auth: UserId)
    requires Advances(s, t)
    ensures forall i :: 0 <= i < |s| && s[i].senderId == auth ==>
      Progress(MessageStatus(FromRow(s[i]), auth)) <= Progress(MessageStatus(FromRow(t[i]), auth))
  {
    forall i | 0 <= i < |s| && s[i].senderId == auth
      ensures Progress(MessageStatus(FromRow(s[i]), auth)) <= Progress(MessageStatus(FromRow(t[i]), auth))
    {
      assert t[i].senderId == s[i].senderId;
      StoredMessageStatus(s[i], auth);
      StoredMessageStatus(t[i], auth);
    }
  }
}
