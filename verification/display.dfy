/** The derived views the chat pages compute from the message list: whose
    message it is, whether it has been read, when a sender's avatar and
    time are repeated, and how consecutive messages group
    (app/chat/ChatClient.tsx:275-297 and 412-446; app/chat/page.tsx:215-237
    and 332-340). */
module Display {
  import opened Wrappers
  import opened Text
  import opened Messages

  /** `isMyMessage`: the local optimistic copy, or a message whose sender
      is the local user. */
  predicate IsMine(m: Message, user: string) {
    m.self || m.sender == user
  }

  /** The senders of `msgs` other than `user`, in list order, repeats
      included. */
  function SendersExcept(msgs: seq<Message>, user: string): (r: seq<string>)
    ensures forall i :: 0 <= i < |msgs| && msgs[i].sender != user ==> msgs[i].sender in r
    ensures forall s :: s in r ==> s != user && exists i :: 0 <= i < |msgs| && msgs[i].sender == s
  {
    if msgs == [] then []
    else
      var rest := SendersExcept(msgs[1..], user);
      assert forall i :: 1 <= i < |msgs| ==> msgs[i] == msgs[1..][i - 1];
      if msgs[0].sender != user then [msgs[0].sender] + rest else rest
  }

  /** No element occurs twice. */
  predicate Distinct(xs: seq<string>) {
    forall i, j :: 0 <= i < j < |xs| ==> xs[i] != xs[j]
  }

  /** `Array.from(new Set(xs))`: the first occurrence of every element, in
      order. */
  function Dedup(xs: seq<string>): (r: seq<string>)
    ensures Distinct(r)
    ensures forall x :: x in r <==> x in xs
  {
    if xs == [] then []
    else
      var d := Dedup(xs[..|xs| - 1]);
      assert xs == xs[..|xs| - 1] + [xs[|xs| - 1]];
      if xs[|xs| - 1] in d then d else d + [xs[|xs| - 1]]
  }

  /** The other participants the page knows of: distinct senders that are
      not the local user. */
  function OtherUsers(msgs: seq<Message>, user: string): seq<string> {
    Dedup(SendersExcept(msgs, user))
  }

  /** The distinct other users are exactly the senders that are not the
      local user, each listed once. */
  lemma OtherUsersAreOtherSenders(msgs: seq<Message>, user: string)
    ensures Distinct(OtherUsers(msgs, user))
    ensures forall i :: 0 <= i < |msgs| && msgs[i].sender != user ==> msgs[i].sender in OtherUsers(msgs, user)
    ensures forall u :: u in OtherUsers(msgs, user) ==>
      u != user && exists i :: 0 <= i < |msgs| && msgs[i].sender == u
  {
  }

  /** `m.readBy?.includes(u)`. */
  predicate ReadByUser(m: Message, u: string) {
    m.readBy.Some? && u in m.readBy.value
  }

  /** `isRead` of app/chat/ChatClient.tsx: a confirmed message, a signed-in
      user, at least one other participant, and every other participant in
      `readBy`. */
  function IsReadClient(m: Message, msgs: seq<Message>, user: string): (r: bool)
    ensures r <==>
      && HasId(m) && user != ""
      && (exists i :: 0 <= i < |msgs| && msgs[i].sender != user)
      && (forall i :: 0 <= i < |msgs| && msgs[i].sender != user ==> ReadByUser(m, msgs[i].sender))
  {
    var others := OtherUsers(msgs, user);
    OtherUsersAreOtherSenders(msgs, user);
    if !HasId(m) || user == "" then false
    else
      assert (exists i :: 0 <= i < |msgs| && msgs[i].sender != user) ==> |others| > 0 by {
        if exists i :: 0 <= i < |msgs| && msgs[i].sender != user {
          var i :| 0 <= i < |msgs| && msgs[i].sender != user;
          assert msgs[i].sender in others;
        }
      }
      assert |others| > 0 ==> exists i :: 0 <= i < |msgs| && msgs[i].sender != user by {
        if |others| > 0 { assert others[0] in others; }
      }
      |others| > 0 && forall u :: u in others ==> ReadByUser(m, u)
  }

  /** `isRead` of app/chat/page.tsx: as above but without the "at least one
      other participant" test, so a confirmed message counts as read while
      nobody else has posted. */
  function IsReadPage(m: Message, msgs: seq<Message>, user: string): (r: bool)
    ensures r <==>
      && HasId(m) && user != ""
      && (forall i :: 0 <= i < |msgs| && msgs[i].sender != user ==> ReadByUser(m, msgs[i].sender))
  {
    var others := OtherUsers(msgs, user);
    OtherUsersAreOtherSenders(msgs, user);
    if !HasId(m) || user == "" then false
    else forall u :: u in others ==> ReadByUser(m, u)
  }

  /** The two pages disagree exactly while the local user is the only
      sender: the page variant calls a confirmed message read, the client
      variant does not. */
  lemma ReadVariantsDisagreeWhenAlone(m: Message, msgs: seq<Message>, user: string)
    requires HasId(m) && user != ""
    requires forall i :: 0 <= i < |msgs| ==> msgs[i].sender == user
    ensures IsReadPage(m, msgs, user) && !IsReadClient(m, msgs, user)
  {
  }

  /** Once someone else has posted, the two variants agree. */
  lemma ReadVariantsAgreeWithOthers(m: Message, msgs: seq<Message>, user: string, k: nat)
    requires k < |msgs| && msgs[k].sender != user
    ensures IsReadPage(m, msgs, user) == IsReadClient(m, msgs, user)
  {
  }

  /** An id-less message (a sender's own optimistic copy) never shows as
      read, however many receipts arrive. */
  lemma IdlessNeverRead(m: Message, msgs: seq<Message>, user: string)
    requires m.id.None?
    ensures !IsReadClient(m, msgs, user) && !IsReadPage(m, msgs, user)
  {
  }

  /** `t` is a truthy timestamp. */
  predicate TimeSet(t: Option<int>) {
    t.Some? && t.value != 0
  }

  /** The repetition window in milliseconds (five minutes). */
  const Window: int := 300000

  /** `shouldShowAvatar` and `shouldShowTimestamp` (identical in both
      pages): shown for the first message, for a change of sender, and for
      a gap of more than five minutes when both timestamps are set. */
  function ShowHeader(msgs: seq<Message>, i: nat): (r: bool)
    requires i < |msgs|
    ensures i == 0 ==> r
    ensures i > 0 && msgs[i].sender != msgs[i - 1].sender ==> r
    ensures !r ==> i > 0 && msgs[i].sender == msgs[i - 1].sender
    ensures i > 0 && msgs[i].sender == msgs[i - 1].sender ==>
      (r <==> TimeSet(msgs[i].timestamp) && TimeSet(msgs[i - 1].timestamp)
              && msgs[i].timestamp.value - msgs[i - 1].timestamp.value > Window)
  {
    if i == 0 then true
    else
      var cur := msgs[i];
      var before := msgs[i - 1];
      || cur.sender != before.sender
      || (TimeSet(cur.timestamp) && TimeSet(before.timestamp)
          && cur.timestamp.value - before.timestamp.value > Window)
  }

  /** Between two shown headers every message has the sender of the one
      that showed it: a header-less run is a single sender's. */
  lemma {:induction false} HeaderlessRunSameSender(msgs: seq<Message>, a: nat, b: nat)
    requires a <= b < |msgs|
    requires forall j :: a < j <= b ==> !ShowHeader(msgs, j)
    ensures forall j :: a <= j <= b ==> msgs[j].sender == msgs[a].sender
  {
    if a < b {
      HeaderlessRunSameSender(msgs, a, b - 1);
      assert !ShowHeader(msgs, b);
    }
  }

  // ---------------------------------------------------------------------
  // messageGroups

  /** A display group: its sender, its messages, and the time of its first
      message (or the time of grouping when that is unset). */
  datatype Group = Group(sender: string, messages: seq<Message>, timestamp: int)

  /** A message extends a group of `sender` opened at `start`: same sender,
      a set timestamp, a set group time, under five minutes after it. */
  predicate Joins(sender: string, start: int, m: Message) {
    && m.sender == sender
    && TimeSet(m.timestamp)
    && start != 0
    && m.timestamp.value - start < Window
  }

  /** A group as `messageGroups` builds them at time `now`. */
  predicate WellFormed(g: Group, now: int) {
    && |g.messages| > 0
    && g.sender == g.messages[0].sender
    && g.timestamp == TimeOr(g.messages[0].timestamp, now)
    && forall k :: 1 <= k < |g.messages| ==> Joins(g.sender, g.timestamp, g.messages[k])
  }

  /** The messages of the groups, in order. */
  function Flatten(groups: seq<Group>): seq<Message> {
    if groups == [] then []
    else Flatten(groups[..|groups| - 1]) + groups[|groups| - 1].messages
  }

  /** No group could have taken the first message of the next one. */
  predicate Maximal(groups: seq<Group>) {
    forall i :: 0 <= i < |groups| - 1 && |groups[i + 1].messages| > 0 ==>
      !Joins(groups[i].sender, groups[i].timestamp, groups[i + 1].messages[0])
  }

  /** Adding a message that joins the last group keeps the grouping's
      invariants. */
  method GrowLast(groups: seq<Group>, m: Message, now: int) returns (next: seq<Group>)
    requires |groups| > 0
    requires forall g :: g in groups ==> WellFormed(g, now)
    requires Maximal(groups)
    requires Joins(groups[|groups| - 1].sender, groups[|groups| - 1].timestamp, m)
    ensures Flatten(next) == Flatten(groups) + [m]
    ensures forall g :: g in next ==> WellFormed(g, now)
    ensures Maximal(next)
  {
    var n := |groups|;
    var last := groups[n - 1];
    var grown := last.(messages := last.messages + [m]);
    assert WellFormed(last, now);
    assert WellFormed(grown, now) by {
      assert grown.messages[0] == last.messages[0];
    }
    next := groups[..n - 1] + [grown];
    assert next[..n - 1] == groups[..n - 1];
    assert Flatten(groups) == Flatten(groups[..n - 1]) + last.messages;
    assert Flatten(next) == Flatten(groups[..n - 1]) + last.messages + [m];
    assert forall k :: 0 <= k < n - 1 ==> next[k] == groups[k];
  }

  /** Opening a new group for a message the last group does not take keeps
      the grouping's invariants. */
  method OpenGroup(groups: seq<Group>, m: Message, now: int) returns (next: seq<Group>)
    requires forall g :: g in groups ==> WellFormed(g, now)
    requires Maximal(groups)
    requires |groups| > 0 ==> !Joins(groups[|groups| - 1].sender, groups[|groups| - 1].timestamp, m)
    ensures Flatten(next) == Flatten(groups) + [m]
    ensures forall g :: g in next ==> WellFormed(g, now)
    ensures Maximal(next)
  {
    var n := |groups|;
    var started := Group(m.sender, [m], TimeOr(m.timestamp, now));
    next := groups + [started];
    assert next[..n] == groups;
    assert forall k :: 0 <= k < n ==> next[k] == groups[k];
  }

  /** `messageGroups` (app/chat/ChatClient.tsx:423-446): walk the list,
      adding each message to the last group when it joins it and opening a
      new group otherwise. */
  method MessageGroups(msgs: seq<Message>, now: int) returns (groups: seq<Group>)
    ensures Flatten(groups) == msgs
    ensures forall g :: g in groups ==> WellFormed(g, now)
    ensures Maximal(groups)
  {
    groups := [];
    var i := 0;
    while i < |msgs|
      invariant 0 <= i <= |msgs|
      invariant Flatten(groups) == msgs[..i]
      invariant forall g :: g in groups ==> WellFormed(g, now)
      invariant Maximal(groups)
    {
      var m := msgs[i];
      var n := |groups|;
      if n > 0 && Joins(groups[n - 1].sender, groups[n - 1].timestamp, m) {
        groups := GrowLast(groups, m, now);
      } else {
        groups := OpenGroup(groups, m, now);
      }
      assert msgs[..i + 1] == msgs[..i] + [m];
      i := i + 1;
    }
    assert msgs[..i] == msgs;
  }
}
