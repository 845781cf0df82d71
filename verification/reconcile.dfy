/** The client's message list and the socket handlers that change it
    (app/chat/ChatClient.tsx:167-209 and 357-395; app/chat/page.tsx carries
    the same handlers at 123-167 and 283-323). Every handler is a pure
    function from the old list to the new one; `now` is `Date.now()`. */
module Reconcile {
  import opened Wrappers
  import opened Text
  import opened Messages
  import opened Store

  function Abs(x: int): nat { if x < 0 then -x else x }

  // ---------------------------------------------------------------------
  // receive-message

  /** `handleReceiveMessage`'s duplicate test: equal ids (two absent ids are
      equal), or the held message has no id and matches sender and text with
      timestamps less than a second apart (an absent or zero timestamp
      counts as 0 on the held side and as `now` on the incoming side). */
  predicate SameMessage(held: Message, m: Message, now: int) {
    || held.id == m.id
    || (&& held.sender == m.sender
        && held.text == m.text
        && !HasId(held)
        && Abs(TimeOr(held.timestamp, 0) - TimeOr(m.timestamp, now)) < 1000)
  }

  /** `prev.some(...)` over the duplicate test. */
  function AnyDuplicate(prev: seq<Message>, m: Message, now: int): (b: bool)
    ensures b <==> exists i :: 0 <= i < |prev| && SameMessage(prev[i], m, now)
  {
    if prev == [] then false
    else SameMessage(prev[0], m, now) || AnyDuplicate(prev[1..], m, now)
  }

  /** The entry appended for a new message: timestamp and `readBy` given
      their defaults, everything else as received. */
  function Stamp(m: Message, now: int): (e: Message)
    ensures e.(timestamp := m.timestamp, readBy := m.readBy) == m
    ensures e.timestamp == Some(TimeOr(m.timestamp, now))
    ensures e.readBy == Some(Readers(m))
  {
    m.(timestamp := Some(TimeOr(m.timestamp, now)), readBy := Some(Readers(m)))
  }

  /** Stamping fills defaults only: a message whose timestamp is set and
      non-zero and whose `readBy` is present is kept as it is, so a message
      once stamped with a running clock is not stamped again. */
  lemma StampIdempotent(m: Message, now: int, later: int)
    ensures m.timestamp.Some? && m.timestamp.value != 0 && m.readBy.Some? ==> Stamp(m, later) == m
    ensures now != 0 ==> Stamp(Stamp(m, now), later) == Stamp(m, now)
  {
  }

  /** `receive-message`: append the message unless a held one duplicates
      it. Held messages are never removed, changed or reordered. */
  function Receive(prev: seq<Message>, m: Message, now: int): (r: seq<Message>)
    ensures prev <= r
    ensures |r| <= |prev| + 1
    ensures |r| == |prev| <==> exists i :: 0 <= i < |prev| && SameMessage(prev[i], m, now)
    ensures |r| == |prev| + 1 ==>
      && r[|prev|].(timestamp := m.timestamp, readBy := m.readBy) == m
      && r[|prev|].timestamp == Some(TimeOr(m.timestamp, now))
      && r[|prev|].readBy == Some(Readers(m))
  {
    if AnyDuplicate(prev, m, now) then prev else prev + [Stamp(m, now)]
  }

  /** Redelivery is absorbed: receiving the same message twice leaves the
      list as one delivery did. */
  lemma ReceiveIdempotent(prev: seq<Message>, m: Message, now: int)
    ensures Receive(Receive(prev, m, now), m, now) == Receive(prev, m, now)
  {
    var once := Receive(prev, m, now);
    if |once| == |prev| + 1 {
      assert SameMessage(once[|prev|], m, now);
    }
  }

  /** An incoming message without an id is dropped as soon as any held
      message lacks an id too, whatever its sender, text or time. */
  lemma IdlessDroppedByAnyIdless(prev: seq<Message>, m: Message, now: int, k: nat)
    requires m.id.None?
    requires k < |prev| && prev[k].id.None?
    ensures Receive(prev, m, now) == prev
  {
    assert SameMessage(prev[k], m, now);
  }

  /** An incoming message whose id is already held is dropped. */
  lemma KnownIdDropped(prev: seq<Message>, m: Message, now: int, k: nat)
    requires k < |prev| && prev[k].id == m.id
    ensures Receive(prev, m, now) == prev
  {
    assert SameMessage(prev[k], m, now);
  }

  /** A persisted echo of an id-less local copy (same sender and text, 50 ms
      apart) is recognised and not shown twice. */
  lemma EchoOfLocalCopyMerged(now: int)
    ensures
      var local := Message(None, "A", "hi", true, Some(1000), None, None, None, Some([]));
      var echo := Message(Some("x"), "A", "hi", false, Some(1050), None, None, None, Some([]));
      Receive([local], echo, now) == [local]
  {
    var local := Message(None, "A", "hi", true, Some(1000), None, None, None, Some([]));
    var echo := Message(Some("x"), "A", "hi", false, Some(1050), None, None, None, Some([]));
    assert SameMessage(local, echo, now);
  }

  // ---------------------------------------------------------------------
  // previous-messages

  /** The record as the client normalises it: the fields it keeps, `self`
      unset, the stored timestamp as milliseconds. A stored record always
      has a timestamp, so the `Date.now()` fallback never applies. */
  function FromRecord(rec: StoredMessage): (m: Message)
    ensures m.id == Some(rec.id) && m.sender == rec.sender && m.text == rec.text
    ensures !m.self && m.timestamp == Some(rec.timestamp) && m.readBy == Some(rec.readBy)
    ensures m.fileUrl == rec.fileUrl && m.fileName == rec.fileName
    ensures m.fileType.Some? <==> rec.fileType.Some?
    ensures rec.fileType.Some? ==> m.fileType == Some(KindName(rec.fileType.value))
  {
    Message(
      id := Some(rec.id),
      sender := rec.sender,
      text := rec.text,
      self := false,
      timestamp := Some(rec.timestamp),
      fileUrl := rec.fileUrl,
      fileType := if rec.fileType.Some? then Some(KindName(rec.fileType.value)) else None,
      fileName := rec.fileName,
      readBy := Some(rec.readBy))
  }

  function FromRecords(recs: seq<StoredMessage>): (r: seq<Message>)
    ensures |r| == |recs|
    ensures forall i :: 0 <= i < |recs| ==> r[i] == FromRecord(recs[i])
  {
    if recs == [] then [] else [FromRecord(recs[0])] + FromRecords(recs[1..])
  }

  /** The template string `${sender}-${text}-${timestamp}`. */
  function CompositeKey(m: Message): string {
    m.sender + "-" + m.text + "-"
      + (if m.timestamp.Some? then IntToString(m.timestamp.value) else "undefined")
  }

  /** `m._id || composite`: the key `previous-messages` deduplicates on. */
  function Key(m: Message): (k: string)
    ensures HasId(m) ==> k == m.id.value
    ensures !HasId(m) ==> k == CompositeKey(m)
  {
    if HasId(m) then m.id.value else CompositeKey(m)
  }

  /** The keys of a list (`new Set(prev.map(key))`). */
  function Keys(msgs: seq<Message>): set<string> {
    set i | 0 <= i < |msgs| :: Key(msgs[i])
  }

  /** The messages of `incoming` whose key is not in `known`, in order. */
  function Unknown(incoming: seq<Message>, known: set<string>): seq<Message> {
    if incoming == [] then []
    else
      var rest := Unknown(incoming[1..], known);
      if Key(incoming[0]) in known then rest else [incoming[0]] + rest
  }

  /** The filter keeps exactly the messages with an unknown key. */
  lemma {:induction false} UnknownFilter(incoming: seq<Message>, known: set<string>)
    ensures |Unknown(incoming, known)| <= |incoming|
    ensures forall i :: 0 <= i < |Unknown(incoming, known)| ==>
      Key(Unknown(incoming, known)[i]) !in known && Unknown(incoming, known)[i] in incoming
    ensures forall x :: x in incoming && Key(x) !in known ==> x in Unknown(incoming, known)
  {
    if incoming != [] {
      UnknownFilter(incoming[1..], known);
      assert incoming == [incoming[0]] + incoming[1..];
    }
  }

  /** Filtering keeps order: filtering a concatenation is concatenating the
      filtered parts. */
  lemma {:induction false} UnknownAppend(a: seq<Message>, b: seq<Message>, known: set<string>)
    ensures Unknown(a + b, known) == Unknown(a, known) + Unknown(b, known)
  {
    if a == [] {
      assert a + b == b;
    } else {
      var ab := a + b;
      assert ab[0] == a[0];
      assert ab[1..] == a[1..] + b;
      UnknownAppend(a[1..], b, known);
    }
  }

  /** Nothing passes the filter when every key is known. */
  lemma {:induction false} UnknownAllKnown(incoming: seq<Message>, known: set<string>)
    requires forall x :: x in incoming ==> Key(x) in known
    ensures Unknown(incoming, known) == []
  {
    if incoming != [] {
      assert incoming[0] in incoming;
      forall x | x in incoming[1..] ensures Key(x) in known {
        assert x in incoming;
      }
      UnknownAllKnown(incoming[1..], known);
    }
  }

  /** `previous-messages`: normalise the replayed records, keep those whose
      key the list does not hold, and put them in front of the list, which
      is kept unchanged after them. */
  function Previous(prev: seq<Message>, replay: seq<StoredMessage>): (r: seq<Message>)
    ensures |prev| <= |r| <= |replay| + |prev|
    ensures r[|r| - |prev|..] == prev
    ensures r[..|r| - |prev|] == Unknown(FromRecords(replay), Keys(prev))
    ensures forall i :: 0 <= i < |r| - |prev| ==>
      Key(r[i]) !in Keys(prev) && r[i] in FromRecords(replay)
    ensures forall j :: 0 <= j < |replay| && Key(FromRecord(replay[j])) !in Keys(prev) ==>
      FromRecord(replay[j]) in r[..|r| - |prev|]
  {
    var added := Unknown(FromRecords(replay), Keys(prev));
    UnknownFilter(FromRecords(replay), Keys(prev));
    assert forall j :: 0 <= j < |replay| ==> FromRecord(replay[j]) == FromRecords(replay)[j];
    var r := added + prev;
    assert r[..|added|] == added;
    r
  }

  /** A persisted record is known by its id: two normalised records have
      the same key exactly when their ids are equal. */
  lemma KeyIsRecordId(a: StoredMessage, b: StoredMessage)
    requires a.id != "" && b.id != ""
    ensures Key(FromRecord(a)) == Key(FromRecord(b)) <==> a.id == b.id
  {
  }

  /** A replayed record is dropped exactly when the list already holds a
      message keyed by its id; otherwise it goes in front of the list. */
  lemma ReplayDroppedIffIdHeld(prev: seq<Message>, rec: StoredMessage)
    requires rec.id != ""
    ensures Previous(prev, [rec]) == prev <==> rec.id in Keys(prev)
    ensures rec.id !in Keys(prev) ==> Previous(prev, [rec]) == [FromRecord(rec)] + prev
  {
    var incoming := FromRecords([rec]);
    assert incoming == [FromRecord(rec)];
    assert Key(FromRecord(rec)) == rec.id;
    assert incoming[1..] == [];
    if rec.id !in Keys(prev) {
      assert Unknown(incoming, Keys(prev)) == [FromRecord(rec)];
      assert |Previous(prev, [rec])| == |prev| + 1;
    } else {
      assert Unknown(incoming, Keys(prev)) == [];
    }
  }

  /** Replaying the same history twice changes nothing the first replay did
      not: every replayed key is known after the first. */
  lemma PreviousIdempotent(prev: seq<Message>, replay: seq<StoredMessage>)
    ensures Previous(Previous(prev, replay), replay) == Previous(prev, replay)
  {
    var once := Previous(prev, replay);
    var incoming := FromRecords(replay);
    var n := |once| - |prev|;
    UnknownFilter(incoming, Keys(prev));
    forall x | x in incoming ensures Key(x) in Keys(once) {
      var j :| 0 <= j < |incoming| && incoming[j] == x;
      if Key(x) in Keys(prev) {
        var i :| 0 <= i < |prev| && Key(prev[i]) == Key(x);
        assert once[n + i] == prev[i];
      } else {
        assert FromRecord(replay[j]) == x;
        assert x in once[..n];
        var i :| 0 <= i < n && once[..n][i] == x;
        assert once[i] == x;
      }
    }
    UnknownAllKnown(incoming, Keys(once));
  }

  /** After a reconnect the replay shows a persisted message beside the
      sender's own id-less local copy of it: the local copy's key is the
      composite string and the record's key is its id, so the record is not
      recognised (the receive handler's time-window match is not applied
      here). */
  lemma ReplayDuplicatesLocalCopy(local: Message, rec: StoredMessage)
    requires local.id.None?
    requires rec.sender == local.sender && rec.text == local.text
    requires rec.id != "" && rec.id != CompositeKey(local)
    ensures
      var r := Previous([local], [rec]);
      && r == [FromRecord(rec), local]
  {
    assert Key(local) == CompositeKey(local);
    assert Keys([local]) == {CompositeKey(local)} by {
      assert [local][0] == local;
    }
  }

  // ---------------------------------------------------------------------
  // message-read

  /** `m.readBy` extended by one reader, everything else untouched. */
  function WithReader(m: Message, reader: string): (e: Message)
    ensures e.(readBy := m.readBy) == m
    ensures Readers(e) == Readers(m) + [reader]
  {
    m.(readBy := Some(Readers(m) + [reader]))
  }

  /** `message-read`: append the reader to every message whose id equals
      `messageId`; all other messages, the length and the order stay. */
  function MarkRead(prev: seq<Message>, messageId: string, reader: string): (r: seq<Message>)
    ensures |r| == |prev|
    ensures forall i :: 0 <= i < |prev| && prev[i].id != Some(messageId) ==> r[i] == prev[i]
    ensures forall i :: 0 <= i < |prev| && prev[i].id == Some(messageId) ==>
      r[i].(readBy := prev[i].readBy) == prev[i] && Readers(r[i]) == Readers(prev[i]) + [reader]
  {
    if prev == [] then []
    else
      [if prev[0].id == Some(messageId) then WithReader(prev[0], reader) else prev[0]]
      + MarkRead(prev[1..], messageId, reader)
  }

  /** A receipt for an id the list does not hold leaves it unchanged. */
  lemma MarkReadUnknownIdNoop(prev: seq<Message>, messageId: string, reader: string)
    requires forall i :: 0 <= i < |prev| ==> prev[i].id != Some(messageId)
    ensures MarkRead(prev, messageId, reader) == prev
  {
  }

  /** The client list is not a set: a repeated receipt lists the reader
      twice. */
  lemma MarkReadTwiceDuplicates(prev: seq<Message>, messageId: string, reader: string, i: nat)
    requires i < |prev| && prev[i].id == Some(messageId)
    ensures
      var twice := MarkRead(MarkRead(prev, messageId, reader), messageId, reader);
      Readers(twice[i]) == Readers(prev[i]) + [reader, reader]
  {
  }

  // ---------------------------------------------------------------------
  // send

  /** The file staged for sending and the URL its upload produced (`None`
      when the upload failed). */
  datatype Staged = NoFile | StagedFile(kind: FileKind, name: string, uploadedUrl: Option<string>)

  /** The new list and the `send-message` payload, if one was emitted. */
  datatype SendResult = SendResult(messages: seq<Message>, emitted: Option<Message>)

  /** `send` (app/chat/ChatClient.tsx:357-395): nothing happens when the
      socket is down, when a staged upload yields no URL, or when the
      trimmed draft is empty and no file is attached. Otherwise one
      optimistic copy is appended and the draft is emitted. */
  function Send(prev: seq<Message>, draft: string, staged: Staged, user: string, now: int, connected: bool)
    : (r: SendResult)
    ensures r.emitted.None? <==>
      || !connected
      || (staged.StagedFile? && !Truthy(staged.uploadedUrl))
      || (staged.NoFile? && Trim(draft) == "")
    ensures r.emitted.None? ==> r.messages == prev
    ensures r.emitted.Some? ==>
      var e := r.emitted.value;
      && r.messages == prev + [e.(self := true, readBy := Some([]))]
      && e.id.None? && !e.self && e.readBy.None?
      && e.sender == user && e.text == Trim(draft) && e.timestamp == Some(now)
      && (staged.StagedFile? ==>
            e.fileUrl == staged.uploadedUrl && e.fileType == Some(KindName(staged.kind))
            && e.fileName == Some(staged.name))
      && (staged.NoFile? ==> e.fileUrl.None? && e.fileType.None? && e.fileName.None?)
  {
    if !connected then SendResult(prev, None)
    else if staged.StagedFile? && !Truthy(staged.uploadedUrl) then SendResult(prev, None)
    else
      var url := if staged.StagedFile? then staged.uploadedUrl else None;
      if Trim(draft) == "" && !Truthy(url) then SendResult(prev, None)
      else
        var message := Message(
          id := None,
          sender := user,
          text := Trim(draft),
          self := false,
          timestamp := Some(now),
          fileUrl := url,
          fileType := if staged.StagedFile? then Some(KindName(staged.kind)) else None,
          fileName := if staged.StagedFile? then Some(staged.name) else None,
          readBy := None);
        SendResult(prev + [message.(self := true, readBy := Some([]))], Some(message))
  }

  // ---------------------------------------------------------------------
  // mark-as-read emission

  /** The `mark-as-read` payload. */
  datatype Ack = Ack(messageId: string, user: string)

  /** The acknowledgement a visible message triggers
      (app/chat/ChatClient.tsx:106-137): only with a connected socket and a
      signed-in user, and only for a message with an id and a sender that is
      someone else. */
  function AckFor(m: Message, user: string, connected: bool): (r: Option<Ack>)
    ensures r.Some? <==> connected && user != "" && HasId(m) && m.sender != "" && m.sender != user
    ensures r.Some? ==> r.value == Ack(m.id.value, user)
  {
    if connected && user != "" && HasId(m) && m.sender != "" && m.sender != user
    then Some(Ack(m.id.value, user))
    else None
  }

  /** A user never acknowledges their own messages, and never a copy that
      the server has not confirmed. */
  lemma NoSelfAck(m: Message, user: string, connected: bool)
    requires m.sender == user || m.id.None?
    ensures AckFor(m, user, connected).None?
  {
  }
}
