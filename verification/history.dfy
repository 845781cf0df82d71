/** History retrieval: the store query `find().sort({timestamp: -1})
    .limit(n)` followed by `reverse()`, used by the relay's join replay
    (server.js:138-144) and by `GET /api/messages`
    (app/api/messages/route.ts). Sorting is a stable insertion sort on
    `timestamp`; taking the last `n` of the ascending order is the same as
    taking the first `n` of the descending order and reversing them. */
module History {
  import opened Wrappers
  import opened Text
  import opened Messages
  import opened Store

  /** Timestamps never decrease along `s` (oldest first). */
  predicate Ascending(s: seq<StoredMessage>) {
    forall i, j :: 0 <= i < j < |s| ==> s[i].timestamp <= s[j].timestamp
  }

  /** Insert `x` into an ascending sequence after every record whose
      timestamp is not later than its own. */
  function Insert(x: StoredMessage, s: seq<StoredMessage>): (r: seq<StoredMessage>)
    requires Ascending(s)
    ensures Ascending(r)
    ensures multiset(r) == multiset(s) + multiset{x}
    ensures |r| == |s| + 1
    ensures r[0] == x || (|s| > 0 && r[0] == s[0])
  {
    if s == [] then [x]
    else if x.timestamp < s[0].timestamp then
      AscendingCons(x, s);
      [x] + s
    else
      var rest := Insert(x, s[1..]);
      assert s == [s[0]] + s[1..];
      AscendingCons(s[0], rest);
      [s[0]] + rest
  }

  /** An ascending sequence stays ascending under a record no later than
      its first. */
  lemma AscendingCons(a: StoredMessage, s: seq<StoredMessage>)
    requires Ascending(s)
    requires |s| > 0 ==> a.timestamp <= s[0].timestamp
    ensures Ascending([a] + s)
  {
    var t := [a] + s;
    forall i, j | 0 <= i < j < |t| ensures t[i].timestamp <= t[j].timestamp {
      if i == 0 && j > 1 { assert s[0].timestamp <= s[j - 1].timestamp; }
    }
  }

  /** The records of `store` ordered by timestamp, oldest first; records
      with equal timestamps keep their insertion order. */
  function SortByTime(store: seq<StoredMessage>): (r: seq<StoredMessage>)
    ensures Ascending(r)
    ensures multiset(r) == multiset(store)
    ensures |r| == |store|
  {
    if store == [] then []
    else
      assert store == store[..|store| - 1] + [store[|store| - 1]];
      Insert(store[|store| - 1], SortByTime(store[..|store| - 1]))
  }

  function Min(a: nat, b: nat): nat { if a < b then a else b }

  /** `recent(n)`: the `n` most recent records (all of them when there are
      fewer), oldest first. */
  function Recent(store: seq<StoredMessage>, n: nat): (r: seq<StoredMessage>)
    ensures |r| == Min(n, |store|)
    ensures Ascending(r)
    ensures multiset(r) <= multiset(store)
    ensures forall x, i :: x in multiset(store) - multiset(r) && 0 <= i < |r| ==>
      x.timestamp <= r[i].timestamp
  {
    var sorted := SortByTime(store);
    var k := |sorted| - Min(n, |sorted|);
    SuffixIsLatest(sorted, k);
    sorted[k..]
  }

  /** Cutting an ascending order leaves the later part no earlier than
      anything cut off. */
  lemma SuffixIsLatest(sorted: seq<StoredMessage>, k: nat)
    requires Ascending(sorted)
    requires k <= |sorted|
    ensures Ascending(sorted[k..])
    ensures multiset(sorted[k..]) <= multiset(sorted)
    ensures multiset(sorted) - multiset(sorted[k..]) == multiset(sorted[..k])
    ensures forall x, i :: x in multiset(sorted) - multiset(sorted[k..]) && 0 <= i < |sorted| - k ==>
      x.timestamp <= sorted[k..][i].timestamp
  {
    var r := sorted[k..];
    assert sorted == sorted[..k] + r;
    assert multiset(sorted) == multiset(sorted[..k]) + multiset(r);
    forall x, i | x in multiset(sorted[..k]) && 0 <= i < |r|
      ensures x.timestamp <= r[i].timestamp
    {
      assert x in sorted[..k];
      var j :| 0 <= j < k && sorted[..k][j] == x;
      assert r[i] == sorted[k + i];
    }
  }

  /** A store no larger than the limit is returned whole, as a
      rearrangement of its records. */
  lemma RecentAllWhenSmall(store: seq<StoredMessage>, n: nat)
    requires |store| <= n
    ensures multiset(Recent(store, n)) == multiset(store)
  {
    var r := Recent(store, n);
    assert |multiset(r)| == |multiset(store)|;
    var d := multiset(store) - multiset(r);
    assert multiset(store) == multiset(r) + d;
    assert |d| == 0;
  }

  /** The fields `GET /api/messages` selects: no `updatedAt`. */
  datatype ApiRecord = ApiRecord(
    id: string,
    sender: string,
    text: string,
    timestamp: int,
    fileUrl: Option<string>,
    fileType: Option<FileKind>,
    fileName: Option<string>,
    readBy: seq<string>,
    createdAt: int)

  /** `.select("sender text timestamp fileUrl fileType fileName readBy
      createdAt")`: the projection keeps `_id` and the named fields. */
  function Project(rec: StoredMessage): (a: ApiRecord)
    ensures a.id == rec.id && a.sender == rec.sender && a.text == rec.text
    ensures a.timestamp == rec.timestamp && a.readBy == rec.readBy && a.createdAt == rec.createdAt
    ensures a.fileUrl == rec.fileUrl && a.fileType == rec.fileType && a.fileName == rec.fileName
  {
    ApiRecord(rec.id, rec.sender, rec.text, rec.timestamp, rec.fileUrl, rec.fileType,
              rec.fileName, rec.readBy, rec.createdAt)
  }

  /** The answer forgets exactly `updatedAt`: two records project alike
      precisely when they differ in nothing else. */
  lemma ProjectForgetsOnlyUpdatedAt(a: StoredMessage, b: StoredMessage)
    ensures Project(a) == Project(b) <==> a.(updatedAt := b.updatedAt) == b
  {
  }

  function ProjectAll(recs: seq<StoredMessage>): (r: seq<ApiRecord>)
    ensures |r| == |recs|
    ensures forall i :: 0 <= i < |recs| ==> r[i] == Project(recs[i])
  {
    if recs == [] then [] else [Project(recs[0])] + ProjectAll(recs[1..])
  }

  /** Why a history request failed: the store raised an error with a
      message, or the store driver rejected a limit that is not a number. */
  datatype FetchError = StoreError(message: string) | LimitRejected

  datatype HistoryResponse =
    | HistoryOk(messages: seq<ApiRecord>, count: nat)
    | HistoryError(status: nat, reason: FetchError)

  /** `parseInt(searchParams.get("limit") || "50", 10)`: an absent or empty
      parameter means 50. */
  function LimitOf(param: Option<string>): (r: Option<int>)
    ensures !Truthy(param) ==> r == Some(50)
  {
    assert ParseInt("50") == Some(50) by {
      assert IntToString(50) == "50";
      ParseIntOfIntToString(50);
    }
    ParseInt(if Truthy(param) then param.value else "50")
  }

  /** The store driver's reading of a numeric limit: zero means no limit,
      a negative limit returns as many records as its magnitude. */
  function Cap(limit: int, size: nat): (n: nat)
    ensures limit == 0 ==> n == size
    ensures limit != 0 ==> n == if limit < 0 then -limit else limit
  {
    if limit == 0 then size else if limit < 0 then -limit else limit
  }

  /** `GET /api/messages` over the store contents; `failure` is the error
      the connection or the query raises, if any
      (app/api/messages/route.ts:6-40). */
  function GetMessages(store: seq<StoredMessage>, limitParam: Option<string>, failure: Option<string>)
    : (r: HistoryResponse)
    ensures failure.Some? ==> r == HistoryError(500, StoreError(failure.value))
    ensures r.HistoryError? ==> r.status == 500
    ensures failure.Some? ==>
      ErrorText(r.reason) != "" && (failure.value != "" ==> ErrorText(r.reason) == failure.value)
    ensures r.HistoryOk? <==> failure.None? && LimitOf(limitParam).Some?
    ensures r.HistoryOk? ==>
      && r.count == |r.messages|
      && |r.messages| == Min(Cap(LimitOf(limitParam).value, |store|), |store|)
      && r.messages == ProjectAll(Recent(store, Cap(LimitOf(limitParam).value, |store|)))
  {
    if failure.Some? then HistoryError(500, StoreError(failure.value))
    else
      match LimitOf(limitParam)
      case None => HistoryError(500, LimitRejected)
      case Some(limit) =>
        var page := ProjectAll(Recent(store, Cap(limit, |store|)));
        HistoryOk(page, |page|)
  }

  /** Without a `limit` parameter a healthy store returns its 50 most recent
      records (all of them when it holds fewer), oldest first. */
  lemma DefaultHistoryIsFifty(store: seq<StoredMessage>)
    ensures
      var r := GetMessages(store, None, None);
      && r.HistoryOk?
      && r.count == Min(50, |store|)
      && (forall i, j :: 0 <= i < j < |r.messages| ==>
            r.messages[i].timestamp <= r.messages[j].timestamp)
  {
    var r := GetMessages(store, None, None);
    assert LimitOf(None) == Some(50);
    var recent := Recent(store, 50);
    assert r.messages == ProjectAll(recent);
    forall i, j | 0 <= i < j < |r.messages|
      ensures r.messages[i].timestamp <= r.messages[j].timestamp
    {
      assert r.messages[i] == Project(recent[i]);
      assert r.messages[j] == Project(recent[j]);
    }
  }

  /** `?limit=0` returns the whole store, rearranged oldest first. */
  lemma ZeroLimitReturnsAll(store: seq<StoredMessage>)
    ensures
      var r := GetMessages(store, Some("0"), None);
      && r.HistoryOk?
      && r.count == |store|
      && r.messages == ProjectAll(Recent(store, |store|))
      && multiset(Recent(store, |store|)) == multiset(store)
  {
    assert LimitOf(Some("0")) == Some(0) by {
      assert IntToString(0) == "0";
      ParseIntOfIntToString(0);
    }
    RecentAllWhenSmall(store, |store|);
  }

  /** `?limit=-k` returns the `k` most recent records, as `?limit=k` does. */
  lemma NegativeLimitIsMagnitude(store: seq<StoredMessage>, k: nat)
    requires k > 0
    ensures
      var r := GetMessages(store, Some(IntToString(-(k as int))), None);
      && r.HistoryOk?
      && r.count == Min(k, |store|)
      && r == GetMessages(store, Some(IntToString(k)), None)
  {
    var neg := -(k as int);
    assert LimitOf(Some(IntToString(neg))) == Some(neg) by {
      ParseIntOfIntToString(neg);
    }
    assert LimitOf(Some(IntToString(k))) == Some(k) by {
      ParseIntOfIntToString(k);
    }
    assert Cap(neg, |store|) == Cap(k, |store|) == k;
  }

  /** `error.message || "Failed to fetch messages"`: the text the error
      response carries for a store error. */
  function ErrorText(e: FetchError): (t: string)
    requires e.StoreError?
    ensures t != ""
    ensures e.message != "" ==> t == e.message
  {
    if e.message != "" then e.message else "Failed to fetch messages"
  }
}
