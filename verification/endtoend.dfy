/** How the pieces meet: what the sending page keeps and emits, what the
    relay forwards, what the other pages append, and where a read
    acknowledgement ends up (app/chat/ChatClient.tsx and server.js
    together). */
module EndToEnd {
  import opened Wrappers
  import opened Text
  import opened Messages
  import opened Store
  import Relay
  import Reconcile
  import Display

  /** The optimistic copy `send` appends is the sender's own: it is drawn
      as theirs, never acknowledged and never shown as read, since it has
      no id until the server confirms it. */
  lemma SentCopyIsMine(prev: seq<Message>, draft: string, staged: Reconcile.Staged, user: string, now: int)
    requires Reconcile.Send(prev, draft, staged, user, now, true).emitted.Some?
    ensures
      var r := Reconcile.Send(prev, draft, staged, user, now, true);
      var copy := r.messages[|r.messages| - 1];
      && Display.IsMine(copy, user)
      && (forall online :: Reconcile.AckFor(copy, user, online).None?)
      && !Display.IsReadClient(copy, r.messages, user)
  {
  }

  /** Apart from local copies (`self`, which the acknowledgement rule does
      not look at), a message the page acknowledges is never one it draws as
      the user's own. */
  lemma AckedIsNotMine(m: Message, user: string, online: bool)
    requires !m.self
    ensures Reconcile.AckFor(m, user, online).Some? ==> !Display.IsMine(m, user)
  {
  }

  /** A draft sent to the relay reaches every other room member as the
      payload the sending page built, with the saved record's id (none when
      nothing was saved) and an empty `readBy`. A page that holds no
      duplicate of it appends exactly that payload, and for any viewer other
      than the author it is not drawn as their own. */
  lemma RelayedDraftShownAsSent(
    prev: seq<Message>, draft: string, staged: Reconcile.Staged, user: string, now: int,
    s: Relay.RelayState, c: Relay.ConnId, d: Relay.ConnId, freshId: string, saveFails: bool,
    theirs: seq<Message>, later: int)
    requires Reconcile.Send(prev, draft, staged, user, now, true).emitted.Some?
    requires now != 0
    requires d in s.room && d != c
    ensures
      var e := Reconcile.Send(prev, draft, staged, user, now, true).emitted.value;
      var saved := Relay.Saved(s, e, now, freshId, saveFails);
      var inbox := Relay.Inbox(Relay.SendMessage(s, c, e, now, freshId, saveFails).outbox, d);
      && |inbox| > 0
      && inbox[|inbox| - 1].ReceiveMessage?
      && var out := inbox[|inbox| - 1].message;
      && out.sender == user && out.text == Trim(draft) && out.timestamp == Some(now)
      && !out.self && out.readBy == Some([])
      && out.fileUrl == e.fileUrl && out.fileType == e.fileType && out.fileName == e.fileName
      && (saved.Some? ==> out.id == Some(saved.value.id))
      && (saved.None? ==> out.id.None?)
      && (!Reconcile.AnyDuplicate(theirs, out, later) ==>
            Reconcile.Receive(theirs, out, later) == theirs + [out])
      && (forall viewer :: viewer != user ==> !Display.IsMine(out, viewer))
  {
    var e := Reconcile.Send(prev, draft, staged, user, now, true).emitted.value;
    var saved := Relay.Saved(s, e, now, freshId, saveFails);
    var out := Relay.Outgoing(e, saved);
    Reconcile.StampIdempotent(out, later, later);
    assert Reconcile.Stamp(out, later) == out;
  }

  /** An acknowledgement the page emits passes the relay's guard: with the
      store up, the reader is recorded on the acknowledged record, every room
      member hears the receipt, and every page holding the message lists the
      reader on it. */
  lemma AckRecordedEverywhere(
    m: Message, user: string, s: Relay.RelayState, c: Relay.ConnId, now: int, held: seq<Message>)
    requires Reconcile.AckFor(m, user, true).Some?
    requires s.storeUp
    ensures
      var ack := Reconcile.AckFor(m, user, true).value;
      var r := Relay.MarkAsRead(s, c, Some(ack.messageId), ack.user, now, false);
      && (forall d :: d in s.room ==>
            Relay.Inbox(r.outbox, d) == Relay.Inbox(s.outbox, d) + [Relay.MessageRead(m.id.value, user)])
      && (forall i :: 0 <= i < |s.store| && s.store[i].id == m.id.value ==> user in r.store[i].readBy)
      && (forall i :: 0 <= i < |held| && held[i].id == m.id ==>
            user in Readers(Reconcile.MarkRead(held, m.id.value, user)[i]))
  {
  }
}
