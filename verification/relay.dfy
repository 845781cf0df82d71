/** The socket relay of server.js as a state machine: one shared room of
    connections, an abstract message store that is either reachable or not,
    and for every connection the list of events the server has emitted to
    it. Each socket handler is one atomic transition; the clock, the id the
    store assigns and whether a store call throws are parameters. */
module Relay {
  import opened Wrappers
  import opened Text
  import opened Messages
  import opened Store
  import opened History

  /** A socket connection (`socket.id`). */
  type ConnId = nat

  /** The events the server emits. */
  datatype ServerEvent =
    | PreviousMessages(history: seq<StoredMessage>)
    | ReceiveMessage(message: Message)
    | MessageRead(messageId: string, reader: string)

  /** `room` is the members of "chat-room"; `storeUp` stands for
      "the database connection is open and the model loaded"
      (`mongoose.connection.readyState === 1 && Message`). */
  datatype RelayState = RelayState(
    room: set<ConnId>,
    store: seq<StoredMessage>,
    storeUp: bool,
    outbox: map<ConnId, seq<ServerEvent>>)

  /** How many records the join replay asks for (server.js:140). */
  const HistoryLimit: nat := 50

  /** Everything emitted to connection `c` so far. */
  function Inbox(outbox: map<ConnId, seq<ServerEvent>>, c: ConnId): seq<ServerEvent> {
    if c in outbox then outbox[c] else []
  }

  /** Emit `ev` once to each connection of `targets`. */
  function Deliver(outbox: map<ConnId, seq<ServerEvent>>, targets: set<ConnId>, ev: ServerEvent)
    : (r: map<ConnId, seq<ServerEvent>>)
    ensures forall c :: Inbox(r, c) == Inbox(outbox, c) + (if c in targets then [ev] else [])
  {
    map c | c in outbox.Keys + targets ::
      Inbox(outbox, c) + (if c in targets then [ev] else [])
  }

  /** `join` (server.js:130-150): admit `c` to the room; when the store is
      up and the read does not throw, send `c` alone the replay of the
      latest records, oldest first. */
  function Join(s: RelayState, c: ConnId, readFails: bool): (r: RelayState)
    ensures r.room == s.room + {c}
    ensures r.store == s.store && r.storeUp == s.storeUp
    ensures forall d :: d != c ==> Inbox(r.outbox, d) == Inbox(s.outbox, d)
    ensures s.storeUp && !readFails ==>
      Inbox(r.outbox, c) == Inbox(s.outbox, c) + [PreviousMessages(Recent(s.store, HistoryLimit))]
    ensures !s.storeUp || readFails ==> r.outbox == s.outbox
  {
    var room := s.room + {c};
    if s.storeUp && !readFails then
      s.(room := room,
         outbox := Deliver(s.outbox, {c}, PreviousMessages(Recent(s.store, HistoryLimit))))
    else
      s.(room := room)
  }

  /** The replay a join sends holds at most 50 records, oldest first, and
      no stored record left out of it is newer than one included. */
  lemma JoinReplayIsLatestFifty(s: RelayState, c: ConnId)
    requires s.storeUp
    ensures
      var r := Join(s, c, false);
      var ev := Inbox(r.outbox, c)[|Inbox(r.outbox, c)| - 1];
      && ev.PreviousMessages?
      && |ev.history| == Min(50, |s.store|)
      && Ascending(ev.history)
      && (forall x, i :: x in multiset(s.store) - multiset(ev.history) && 0 <= i < |ev.history| ==>
            x.timestamp <= ev.history[i].timestamp)
  {
  }

  /** The document `send-message` tries to save (server.js:159-169): text
      defaults to the empty string, the timestamp to now, and the file
      fields are copied only when `fileUrl` is truthy. */
  function RecordOf(msg: Message, now: int): (input: RecordInput)
    ensures input.sender == Some(msg.sender) && input.text == Some(msg.text)
    ensures input.timestamp == Some(TimeOr(msg.timestamp, now))
    ensures Truthy(msg.fileUrl) ==>
      input.fileUrl == msg.fileUrl && input.fileType == msg.fileType && input.fileName == msg.fileName
    ensures !Truthy(msg.fileUrl) ==>
      input.fileUrl.None? && input.fileType.None? && input.fileName.None?
  {
    var withFile := Truthy(msg.fileUrl);
    RecordInput(
      sender := Some(msg.sender),
      text := Some(msg.text),
      timestamp := Some(TimeOr(msg.timestamp, now)),
      fileUrl := if withFile then msg.fileUrl else None,
      fileType := if withFile then msg.fileType else None,
      fileName := if withFile then msg.fileName else None)
  }

  /** The record a send leaves in the store, if any: none when the store is
      down, the save throws, or the schema rejects the document. */
  function Saved(s: RelayState, msg: Message, now: int, freshId: string, saveFails: bool)
    : (r: Option<StoredMessage>)
    ensures r.Some? <==> s.storeUp && !saveFails && NewRecord(RecordOf(msg, now), freshId, now).Success?
    ensures r.Some? ==> r.value == NewRecord(RecordOf(msg, now), freshId, now).value
  {
    if s.storeUp && !saveFails then
      match NewRecord(RecordOf(msg, now), freshId, now)
      case Success(rec) => Some(rec)
      case Failure(_) => None
    else None
  }

  /** What a send stores when the store is up and the save does not throw:
      a record exactly when the trimmed sender is non-empty and an attached
      file's declared type is one of the enum values. The record holds the
      store's id, the trimmed sender and draft, the draft's timestamp (or
      now), no readers, and the file fields only when a URL is attached. */
  lemma SaveOutcome(s: RelayState, msg: Message, now: int, freshId: string)
    requires s.storeUp
    ensures
      var saved := Saved(s, msg, now, freshId, false);
      && (saved.Some? <==>
            && Trim(msg.sender) != ""
            && (Truthy(msg.fileUrl) && msg.fileType.Some? ==> ParseKind(msg.fileType.value).Some?))
      && (saved.Some? ==>
            var rec := saved.value;
            && rec.id == freshId
            && rec.sender == Trim(msg.sender) && rec.text == Trim(msg.text)
            && rec.timestamp == TimeOr(msg.timestamp, now)
            && rec.readBy == [] && rec.createdAt == now && rec.updatedAt == now
            && (Truthy(msg.fileUrl) ==>
                  && rec.fileUrl == msg.fileUrl && rec.fileName == msg.fileName
                  && (rec.fileType.Some? <==> msg.fileType.Some?)
                  && (rec.fileType.Some? ==> KindName(rec.fileType.value) == msg.fileType.value))
            && (!Truthy(msg.fileUrl) ==>
                  rec.fileUrl.None? && rec.fileType.None? && rec.fileName.None?))
  {
  }

  /** `messageToSend` (server.js:182-186): the client's draft as received,
      with the saved record's id (absent when nothing was saved) and an
      empty `readBy`. */
  function Outgoing(msg: Message, saved: Option<StoredMessage>): (m: Message)
    ensures m.(id := msg.id, readBy := msg.readBy) == msg
    ensures m.readBy == Some([])
    ensures saved.Some? ==> m.id == Some(saved.value.id)
    ensures saved.None? ==> m.id.None?
  {
    msg.(id := if saved.Some? then Some(saved.value.id) else None, readBy := Some([]))
  }

  /** `send-message` (server.js:152-196): try to save, then broadcast to
      every room member except the sending connection, whatever became of
      the save. No check rejects an empty draft. */
  function SendMessage(s: RelayState, c: ConnId, msg: Message, now: int, freshId: string, saveFails: bool)
    : (r: RelayState)
    ensures r.room == s.room && r.storeUp == s.storeUp
    ensures
      var saved := Saved(s, msg, now, freshId, saveFails);
      && (saved.Some? ==> r.store == s.store + [saved.value])
      && (saved.None? ==> r.store == s.store)
    ensures forall d ::
      Inbox(r.outbox, d) == Inbox(s.outbox, d) +
        (if d in s.room && d != c then [ReceiveMessage(Outgoing(msg, Saved(s, msg, now, freshId, saveFails)))] else [])
  {
    var saved := Saved(s, msg, now, freshId, saveFails);
    var store := if saved.Some? then s.store + [saved.value] else s.store;
    s.(store := store,
       outbox := Deliver(s.outbox, s.room - {c}, ReceiveMessage(Outgoing(msg, saved))))
  }

  /** `mark-as-read` (server.js:198-214): when the store is up and the id is
      truthy, add the reader to the matching record as a set and announce
      the receipt to every room member, the acknowledging connection
      included, whether or not a record matched. A throwing update emits
      nothing. */
  function MarkAsRead(s: RelayState, c: ConnId, messageId: Option<string>, user: string, now: int, updateFails: bool)
    : (r: RelayState)
    ensures r.room == s.room && r.storeUp == s.storeUp
    ensures !(s.storeUp && Truthy(messageId) && !updateFails) ==> r == s
    ensures s.storeUp && Truthy(messageId) && !updateFails ==>
      && r.store == MarkReadInStore(s.store, messageId.value, user, now)
      && forall d ::
           Inbox(r.outbox, d) == Inbox(s.outbox, d) +
             (if d in s.room then [MessageRead(messageId.value, user)] else [])
  {
    if s.storeUp && Truthy(messageId) && !updateFails then
      s.(store := MarkReadInStore(s.store, messageId.value, user, now),
         outbox := Deliver(s.outbox, s.room, MessageRead(messageId.value, user)))
    else s
  }

  /** A dropped connection leaves the room (socket.io does this on
      disconnect; the handler at server.js:216-219 only logs). */
  function Disconnect(s: RelayState, c: ConnId): (r: RelayState)
    ensures r.room == s.room - {c}
    ensures r.store == s.store && r.outbox == s.outbox
  {
    s.(room := s.room - {c})
  }

  /** A client event together with what the environment decides about it:
      the clock, the id a save would get, and whether the store call
      throws. */
  datatype Event =
    | JoinEvent(conn: ConnId, readFails: bool)
    | SendEvent(conn: ConnId, msg: Message, now: int, freshId: string, saveFails: bool)
    | ReadEvent(conn: ConnId, messageId: Option<string>, user: string, now: int, updateFails: bool)
    | DisconnectEvent(conn: ConnId)

  function Step(s: RelayState, e: Event): RelayState {
    match e
    case JoinEvent(c, readFails) => Join(s, c, readFails)
    case SendEvent(c, msg, now, freshId, saveFails) => SendMessage(s, c, msg, now, freshId, saveFails)
    case ReadEvent(c, id, user, now, updateFails) => MarkAsRead(s, c, id, user, now, updateFails)
    case DisconnectEvent(c) => Disconnect(s, c)
  }

  /** A dropped connection hears nothing more: whatever happens next, short
      of its own rejoin, emits nothing to it. */
  lemma DisconnectedHearsNothing(s: RelayState, c: ConnId, e: Event)
    requires !(e.JoinEvent? && e.conn == c)
    ensures c !in Disconnect(s, c).room
    ensures Inbox(Step(Disconnect(s, c), e).outbox, c) == Inbox(s.outbox, c)
  {
  }

  /** The store's invariant: record ids are unique and no record lists a
      reader twice. */
  predicate Valid(s: RelayState) {
    && UniqueIds(s.store)
    && forall i :: 0 <= i < |s.store| ==> NoDuplicates(s.store[i].readBy)
  }

  /** The store hands out ids it has not used before. */
  predicate FreshId(s: RelayState, e: Event) {
    e.SendEvent? ==> e.freshId !in Ids(s.store)
  }

  /** A send keeps the store's invariant when the store's id is fresh. */
  lemma SendPreservesValid(s: RelayState, c: ConnId, msg: Message, now: int, freshId: string, saveFails: bool)
    requires Valid(s)
    requires freshId !in Ids(s.store)
    ensures Valid(SendMessage(s, c, msg, now, freshId, saveFails))
  {
    var r := SendMessage(s, c, msg, now, freshId, saveFails);
    var saved := Saved(s, msg, now, freshId, saveFails);
    if saved.Some? {
      forall i, j | 0 <= i < j < |r.store| ensures r.store[i].id != r.store[j].id {
        if j == |s.store| { assert s.store[i].id in Ids(s.store); }
      }
    }
  }

  /** A read receipt keeps the store's invariant: `$addToSet` never lists
      a reader twice and ids are untouched. */
  lemma ReadPreservesValid(s: RelayState, c: ConnId, id: Option<string>, user: string, now: int, updateFails: bool)
    requires Valid(s)
    ensures Valid(MarkAsRead(s, c, id, user, now, updateFails))
  {
    var r := MarkAsRead(s, c, id, user, now, updateFails);
    if s.storeUp && Truthy(id) && !updateFails {
      forall i | 0 <= i < |r.store| ensures NoDuplicates(r.store[i].readBy) {
        if s.store[i].id == id.value { AddReaderKeepsDistinct(s.store[i], user, now); }
      }
    }
  }

  /** Every transition keeps the store's invariant, given fresh ids. */
  lemma StepPreservesValid(s: RelayState, e: Event)
    requires Valid(s)
    requires FreshId(s, e)
    ensures Valid(Step(s, e))
  {
    match e
    case SendEvent(c, msg, now, freshId, saveFails) =>
      SendPreservesValid(s, c, msg, now, freshId, saveFails);
    case ReadEvent(c, id, user, now, updateFails) =>
      ReadPreservesValid(s, c, id, user, now, updateFails);
    case JoinEvent(_, _) =>
    case DisconnectEvent(_) =>
  }

  /** Delivery is favoured over durability: a send reaches every other room
      member even when the store is down or the save throws, and then
      carries no id and leaves the store unchanged. */
  lemma SendDeliveredWithoutStore(s: RelayState, c: ConnId, msg: Message, now: int, freshId: string)
    requires !s.storeUp
    ensures
      var r := SendMessage(s, c, msg, now, freshId, false);
      && r.store == s.store
      && forall d :: d in s.room && d != c ==>
           Inbox(r.outbox, d) == Inbox(s.outbox, d) + [ReceiveMessage(msg.(id := None, readBy := Some([])))]
  {
  }

  /** The sender never receives its own message back. */
  lemma SenderNotEchoed(s: RelayState, c: ConnId, msg: Message, now: int, freshId: string, saveFails: bool)
    ensures Inbox(SendMessage(s, c, msg, now, freshId, saveFails).outbox, c) == Inbox(s.outbox, c)
  {
  }

  /** A draft with empty text and no file is persisted (when the store takes
      it) and broadcast like any other: the server never rejects it. */
  lemma EmptyDraftAccepted(s: RelayState, c: ConnId, msg: Message, now: int, freshId: string)
    requires s.storeUp
    requires msg.text == "" && msg.fileUrl.None?
    requires Trim(msg.sender) != ""
    ensures
      var r := SendMessage(s, c, msg, now, freshId, false);
      && |r.store| == |s.store| + 1
      && r.store[|s.store|].text == ""
      && r.store[|s.store|].id == freshId
      && forall d :: d in s.room && d != c ==>
           Inbox(r.outbox, d)[|Inbox(r.outbox, d)| - 1] == ReceiveMessage(msg.(id := Some(freshId), readBy := Some([])))
  {
    assert Trim("") == "";
  }

  /** A repeated read receipt, however much later, changes no reader list
      (only the matching record's `updatedAt`) but is announced again: every
      room member receives it twice. */
  lemma RepeatedReadReceipt(s: RelayState, c: ConnId, id: string, user: string, first: int, later: int)
    requires s.storeUp && id != ""
    ensures
      var once := MarkAsRead(s, c, Some(id), user, first, false);
      var twice := MarkAsRead(once, c, Some(id), user, later, false);
      && |twice.store| == |once.store|
      && (forall i :: 0 <= i < |once.store| ==> twice.store[i].readBy == once.store[i].readBy)
      && (forall i :: 0 <= i < |once.store| ==>
            twice.store[i] == if once.store[i].id == id then once.store[i].(updatedAt := later) else once.store[i])
      && forall d :: d in s.room ==>
           Inbox(twice.outbox, d) == Inbox(s.outbox, d) + [MessageRead(id, user), MessageRead(id, user)]
  {
    MarkReadInStoreIdempotent(s.store, id, user, first, later);
  }

  /** A receipt for an id the store does not hold is still announced to the
      whole room; the store is unchanged. */
  lemma ReceiptForUnknownIdAnnounced(s: RelayState, c: ConnId, id: string, user: string, now: int)
    requires s.storeUp && id != "" && id !in Ids(s.store)
    ensures
      var r := MarkAsRead(s, c, Some(id), user, now, false);
      && r.store == s.store
      && forall d :: d in s.room ==> Inbox(r.outbox, d) == Inbox(s.outbox, d) + [MessageRead(id, user)]
  {
    MarkReadUnknownId(s.store, id, user, now);
  }
}
