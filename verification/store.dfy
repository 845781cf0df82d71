/** The persisted message record of models/Message.ts (the same schema is
    declared again at server.js:15-49): which fields a record has, their
    defaults, trimming, the `fileType` enum, and the `$addToSet` update the
    relay applies for read receipts. The database itself is abstract: a
    store is the sequence of records in insertion order. */
module Store {
  import opened Wrappers
  import opened Text
  import opened Messages

  /** A saved record. `createdAt`/`updatedAt` come from the schema's
      `timestamps` option; `id` is the record's `_id` as a string. */
  datatype StoredMessage = StoredMessage(
    id: string,
    sender: string,
    text: string,
    timestamp: int,
    fileUrl: Option<string>,
    fileType: Option<FileKind>,
    fileName: Option<string>,
    readBy: seq<string>,
    createdAt: int,
    updatedAt: int)

  /** The document handed to `new Message(...)`; an absent field takes the
      schema default. */
  datatype RecordInput = RecordInput(
    sender: Option<string>,
    text: Option<string>,
    timestamp: Option<int>,
    fileUrl: Option<string>,
    fileType: Option<string>,
    fileName: Option<string>)

  /** Paths that fail schema validation; the validator reports every
      failing path at once. */
  datatype ValidationError = ValidationError(paths: set<string>)

  /** `sender` is `required`, checked after trimming: an absent, empty or
      all-whitespace sender fails. */
  predicate SenderValid(input: RecordInput) {
    input.sender.Some? && Trim(input.sender.value) != ""
  }

  /** `fileType` must be one of the enum values when it is set. */
  predicate FileTypeValid(input: RecordInput) {
    input.fileType.None? || ParseKind(input.fileType.value).Some?
  }

  /** Building and validating a record at time `now` under the store-assigned
      `id` (models/Message.ts:16-50). */
  function NewRecord(input: RecordInput, id: string, now: int): (r: Result<StoredMessage, ValidationError>)
    ensures r.Success? <==> SenderValid(input) && FileTypeValid(input)
    ensures r.Failure? ==>
      (forall p :: p in r.error.paths ==> p == "sender" || p == "fileType")
      && ("sender" in r.error.paths <==> !SenderValid(input))
      && ("fileType" in r.error.paths <==> !FileTypeValid(input))
    ensures r.Success? ==>
      var rec := r.value;
      && rec.id == id
      && rec.sender == Trim(input.sender.value) && rec.sender != ""
      && rec.text == Trim(input.text.GetOr(""))
      && rec.timestamp == input.timestamp.GetOr(now)
      && rec.fileUrl == input.fileUrl
      && rec.fileName == input.fileName
      && (rec.fileType.None? <==> input.fileType.None?)
      && (rec.fileType.Some? ==> KindName(rec.fileType.value) == input.fileType.value)
      && rec.readBy == []
      && rec.createdAt == now && rec.updatedAt == now
  {
    var bad := (if SenderValid(input) then {} else {"sender"})
             + (if FileTypeValid(input) then {} else {"fileType"});
    if bad != {} then Failure(ValidationError(bad))
    else
      var kind := if input.fileType.Some? then ParseKind(input.fileType.value) else None;
      Success(StoredMessage(
        id := id,
        sender := Trim(input.sender.value),
        text := Trim(input.text.GetOr("")),
        timestamp := input.timestamp.GetOr(now),
        fileUrl := input.fileUrl,
        fileType := kind,
        fileName := input.fileName,
        readBy := [],
        createdAt := now,
        updatedAt := now))
  }

  /** Validation is stable: saving the fields of a saved record again
      yields the same record (trimming is idempotent and every field is
      already valid). */
  lemma NewRecordResave(input: RecordInput, id: string, now: int)
    requires NewRecord(input, id, now).Success?
    ensures
      var rec := NewRecord(input, id, now).value;
      var again := RecordInput(Some(rec.sender), Some(rec.text), Some(rec.timestamp),
        rec.fileUrl, if rec.fileType.Some? then Some(KindName(rec.fileType.value)) else None,
        rec.fileName);
      NewRecord(again, id, now) == Success(rec)
  {
    var rec := NewRecord(input, id, now).value;
    var again := RecordInput(Some(rec.sender), Some(rec.text), Some(rec.timestamp),
      rec.fileUrl, if rec.fileType.Some? then Some(KindName(rec.fileType.value)) else None,
      rec.fileName);
    TrimIdempotent(input.sender.value);
    TrimIdempotent(input.text.GetOr(""));
    assert SenderValid(again);
    if rec.fileType.Some? {
      KindNameRoundTrip(rec.fileType.value);
    }
    assert FileTypeValid(again);
    var r2 := NewRecord(again, id, now).value;
    assert r2.fileType == rec.fileType;
    assert r2 == rec;
  }

  /** `findByIdAndUpdate(id, { $addToSet: { readBy: user } })` applied to
      one record at time `now`: the reader is added when not already
      present, and the update stamps `updatedAt`. */
  function AddReader(rec: StoredMessage, user: string, now: int): (r: StoredMessage)
    ensures r.(readBy := rec.readBy, updatedAt := rec.updatedAt) == rec
    ensures r.updatedAt == now
    ensures user in r.readBy
    ensures forall u :: u in r.readBy <==> u in rec.readBy || u == user
    ensures user in rec.readBy ==> r.readBy == rec.readBy
    ensures user !in rec.readBy ==> r.readBy == rec.readBy + [user]
  {
    rec.(readBy := if user in rec.readBy then rec.readBy else rec.readBy + [user],
         updatedAt := now)
  }

  /** Set semantics: a repeated read receipt, at any later time, leaves the
      reader list as the first one left it; only `updatedAt` moves on. */
  lemma AddReaderIdempotent(rec: StoredMessage, user: string, first: int, later: int)
    ensures AddReader(AddReader(rec, user, first), user, later).readBy == AddReader(rec, user, first).readBy
    ensures AddReader(AddReader(rec, user, first), user, later)
         == AddReader(rec, user, first).(updatedAt := later)
  {
  }

  /** No reader appears twice in a list. */
  predicate NoDuplicates(xs: seq<string>) {
    forall i, j :: 0 <= i < j < |xs| ==> xs[i] != xs[j]
  }

  /** `$addToSet` never introduces a duplicate reader. */
  lemma AddReaderKeepsDistinct(rec: StoredMessage, user: string, now: int)
    requires NoDuplicates(rec.readBy)
    ensures NoDuplicates(AddReader(rec, user, now).readBy)
  {
  }

  /** The update applied to a whole store: every record whose id is
      `messageId` gains the reader; a store with no such record is left as
      it was (an update that matches nothing is not an error). */
  function MarkReadInStore(store: seq<StoredMessage>, messageId: string, user: string, now: int)
    : (r: seq<StoredMessage>)
    ensures |r| == |store|
    ensures forall i :: 0 <= i < |store| ==>
      r[i] == if store[i].id == messageId then AddReader(store[i], user, now) else store[i]
  {
    if store == [] then []
    else
      [if store[0].id == messageId then AddReader(store[0], user, now) else store[0]]
      + MarkReadInStore(store[1..], messageId, user, now)
  }

  /** The ids of a store's records. */
  function Ids(store: seq<StoredMessage>): set<string> {
    set i | 0 <= i < |store| :: store[i].id
  }

  /** Every record id names one record. */
  predicate UniqueIds(store: seq<StoredMessage>) {
    forall i, j :: 0 <= i < j < |store| ==> store[i].id != store[j].id
  }

  /** A read receipt for an id the store does not hold changes nothing. */
  lemma MarkReadUnknownId(store: seq<StoredMessage>, messageId: string, user: string, now: int)
    requires messageId !in Ids(store)
    ensures MarkReadInStore(store, messageId, user, now) == store
  {
    var r := MarkReadInStore(store, messageId, user, now);
    forall i | 0 <= i < |store| ensures r[i] == store[i] {
      assert store[i].id in Ids(store);
    }
  }

  /** Repeating a read receipt, at any later time, changes no reader list:
      the matching record only has its `updatedAt` moved to the repeat's
      time, and every other record is untouched. */
  lemma MarkReadInStoreIdempotent(store: seq<StoredMessage>, messageId: string, user: string,
                                  first: int, later: int)
    ensures
      var once := MarkReadInStore(store, messageId, user, first);
      var twice := MarkReadInStore(once, messageId, user, later);
      && |twice| == |once|
      && (forall i :: 0 <= i < |once| ==> twice[i].readBy == once[i].readBy)
      && (forall i :: 0 <= i < |once| ==>
            twice[i] == if once[i].id == messageId then once[i].(updatedAt := later) else once[i])
  {
    var once := MarkReadInStore(store, messageId, user, first);
    var twice := MarkReadInStore(once, messageId, user, later);
    forall i | 0 <= i < |store|
      ensures twice[i] == if once[i].id == messageId then once[i].(updatedAt := later) else once[i]
    {
      AddReaderIdempotent(store[i], user, first, later);
    }
  }
}
