/** The two string operations test-mongodb-connection.js applies to the
    connection string before connecting: masking the password for display
    (`uri.replace(/:([^:@]+)@/, ':****@')`) and reading the user name
    (`uri.match(/mongodb\+srv:\/\/([^:]+):/)`). Both regular expressions
    are written out as explicit leftmost-match searches. */
module MongoUri {
  import opened Wrappers

  // ---------------------------------------------------------------------
  // Masking

  /** The characters the class `[^:@]` excludes. */
  predicate IsStop(c: char) { c == ':' || c == '@' }

  /** Where the run of non-stop characters starting at `j` ends: the first
      `:` or `@` at or after `j`, or the end of `s`. */
  function RunEnd(s: string, j: nat): (k: nat)
    requires j <= |s|
    ensures j <= k <= |s|
    ensures forall q :: j <= q < k ==> !IsStop(s[q])
    ensures k < |s| ==> IsStop(s[k])
    decreases |s| - j
  {
    if j == |s| || IsStop(s[j]) then j else RunEnd(s, j + 1)
  }

  /** `/:([^:@]+)@/` matches at position `i`: a colon, a non-empty run free
      of `:` and `@`, then `@`. (The greedy run can only end at the first
      stop character, so no other split needs trying.) */
  predicate MaskMatchAt(s: string, i: nat) {
    && i < |s| && s[i] == ':'
    && var k := RunEnd(s, i + 1);
       k > i + 1 && k < |s| && s[k] == '@'
  }

  /** The leftmost match at or after `from`. */
  function FirstMaskMatch(s: string, from: nat): (r: Option<nat>)
    requires from <= |s|
    ensures r.Some? ==>
      from <= r.value < |s| && MaskMatchAt(s, r.value)
      && forall j :: from <= j < r.value ==> !MaskMatchAt(s, j)
    ensures r.None? ==> forall j :: from <= j < |s| ==> !MaskMatchAt(s, j)
    decreases |s| - from
  {
    if from == |s| then None
    else if MaskMatchAt(s, from) then Some(from)
    else FirstMaskMatch(s, from + 1)
  }

  /** The masked text (test-mongodb-connection.js:17): the leftmost match
      is replaced by `:****@`; everything before its colon and after its
      `@` is kept; without a match the text is unchanged. */
  function Mask(uri: string): (r: string)
    ensures (forall j :: 0 <= j < |uri| ==> !MaskMatchAt(uri, j)) ==> r == uri
    ensures forall i :: 0 <= i < |uri| && MaskMatchAt(uri, i)
                        && (forall j :: 0 <= j < i ==> !MaskMatchAt(uri, j)) ==>
      r == uri[..i] + ":****@" + uri[RunEnd(uri, i + 1) + 1..]
  {
    match FirstMaskMatch(uri, 0)
    case None => uri
    case Some(i) => uri[..i] + ":****@" + uri[RunEnd(uri, i + 1) + 1..]
  }

  /** Runs that end inside a shared prefix end at the same place. */
  lemma {:induction false} RunEndShared(s: string, t: string, j: nat, n: nat)
    requires j <= n < |s| && n < |t|
    requires s[..n + 1] == t[..n + 1]
    requires IsStop(s[n])
    ensures RunEnd(s, j) == RunEnd(t, j) <= n
    decreases n - j
  {
    assert s[j] == s[..n + 1][j] == t[..n + 1][j] == t[j];
    if !IsStop(s[j]) {
      RunEndShared(s, t, j + 1, n);
    }
  }

  /** In the masked text no position before the replaced colon matches:
      those positions see the same characters up to that colon. */
  lemma MaskedPrefixUnmatched(uri: string, i: nat, m: string)
    requires i < |uri| && i < |m| && uri[i] == ':'
    requires m[..i + 1] == uri[..i + 1]
    requires forall j :: 0 <= j < i ==> !MaskMatchAt(uri, j)
    ensures forall j :: 0 <= j < i ==> !MaskMatchAt(m, j)
  {
    forall j | 0 <= j < i ensures !MaskMatchAt(m, j) {
      assert m[j] == m[..i + 1][j] == uri[..i + 1][j] == uri[j];
      if m[j] == ':' {
        RunEndShared(uri, m, j + 1, i);
        assert !MaskMatchAt(uri, j);
      }
    }
  }

  /** The replacement `:****@` is itself a match. */
  lemma ReplacementMatches(m: string, i: nat)
    requires i + 6 <= |m| && m[i..i + 6] == ":****@"
    ensures MaskMatchAt(m, i) && RunEnd(m, i + 1) == i + 5
  {
    assert m[i] == ':';
    assert forall q :: i + 1 <= q < i + 5 ==> m[q] == m[i..i + 6][q - i] == '*';
    assert m[i + 5] == m[i..i + 6][5] == '@';
  }

  /** Masking twice is masking once: the mask itself is the leftmost match
      of the masked text and is replaced by itself. */
  lemma MaskIdempotent(uri: string)
    ensures Mask(Mask(uri)) == Mask(uri)
  {
    var first := FirstMaskMatch(uri, 0);
    if first.Some? {
      var i := first.value;
      var k := RunEnd(uri, i + 1);
      var m := Mask(uri);
      assert m == uri[..i] + ":****@" + uri[k + 1..];
      MaskedOnce(uri, i, k, m);
    }
  }

  lemma MaskedOnce(uri: string, i: nat, k: nat, m: string)
    requires i < |uri| && MaskMatchAt(uri, i) && k == RunEnd(uri, i + 1)
    requires forall j :: 0 <= j < i ==> !MaskMatchAt(uri, j)
    requires m == uri[..i] + ":****@" + uri[k + 1..]
    ensures Mask(m) == m
  {
    assert m[..i + 1] == uri[..i + 1];
    MaskedPrefixUnmatched(uri, i, m);
    assert m[i..i + 6] == ":****@";
    ReplacementMatches(m, i);
    assert m[..i] == uri[..i];
    assert m[i + 6..] == uri[k + 1..];
  }

  /** A run is the one that ends at the first stop character. */
  lemma {:induction false} RunEndIs(s: string, j: nat, k: nat)
    requires j <= k <= |s|
    requires forall q :: j <= q < k ==> !IsStop(s[q])
    requires k < |s| ==> IsStop(s[k])
    ensures RunEnd(s, j) == k
    decreases k - j
  {
    if j < k {
      RunEndIs(s, j + 1, k);
    }
  }

  /** Before the colon that ends the user name, a connection string of the
      usual shape holds no match: its only earlier colon, the scheme's, is
      followed by `//` and the user name and then that colon. */
  lemma SchemeUnmatched(user: string, rest: string)
    requires forall c :: c in user ==> !IsStop(c)
    requires rest != [] && rest[0] == ':'
    ensures forall j :: 0 <= j < 14 + |user| ==> !MaskMatchAt(SrvScheme + user + rest, j)
  {
    var s := SrvScheme + user + rest;
    var i := 14 + |user|;
    assert forall q :: 0 <= q < 14 ==> s[q] == SrvScheme[q];
    assert forall q :: 14 <= q < i ==> s[q] == user[q - 14] && user[q - 14] in user;
    assert s[i] == ':';
    forall j | 0 <= j < i ensures !MaskMatchAt(s, j) {
      if s[j] == ':' {
        assert j == 11;
        RunEndIs(s, 12, i);
      }
    }
  }

  /** A connection string of the usual shape shows its user but not its
      password. */
  lemma MaskHidesPassword(user: string, password: string, host: string)
    requires forall c :: c in user ==> !IsStop(c)
    requires forall c :: c in password ==> !IsStop(c)
    requires password != ""
    ensures Mask(SrvScheme + user + ":" + password + "@" + host) == SrvScheme + user + ":****@" + host
  {
    var rest := ":" + password + "@" + host;
    var s := SrvScheme + user + rest;
    assert s == SrvScheme + user + ":" + password + "@" + host;
    var i := 14 + |user|;
    var k := i + 1 + |password|;
    SchemeUnmatched(user, rest);
    assert forall q :: i + 1 <= q < k ==> s[q] == password[q - i - 1] && password[q - i - 1] in password;
    assert s[k] == '@';
    RunEndIs(s, i + 1, k);
    assert MaskMatchAt(s, i);
    assert s[..i] == SrvScheme + user;
    assert s[k + 1..] == host;
  }

  // ---------------------------------------------------------------------
  // User name

  const SrvScheme: string := "mongodb+srv://"

  /** The first `:` at or after `j`, or the end of `s`. */
  function ColonAt(s: string, j: nat): (k: nat)
    requires j <= |s|
    ensures j <= k <= |s|
    ensures forall q :: j <= q < k ==> s[q] != ':'
    ensures k < |s| ==> s[k] == ':'
    decreases |s| - j
  {
    if j == |s| || s[j] == ':' then j else ColonAt(s, j + 1)
  }

  /** `/mongodb\+srv:\/\/([^:]+):/` matches at `p`. */
  predicate UserMatchAt(s: string, p: nat) {
    && p + 14 <= |s| && s[p..p + 14] == SrvScheme
    && var k := ColonAt(s, p + 14);
       k > p + 14 && k < |s|
  }

  function FirstUserMatch(s: string, from: nat): (r: Option<nat>)
    requires from <= |s|
    ensures r.Some? ==>
      from <= r.value && UserMatchAt(s, r.value)
      && forall p :: from <= p < r.value ==> !UserMatchAt(s, p)
    ensures r.None? ==> forall p :: from <= p <= |s| ==> !UserMatchAt(s, p)
    decreases |s| - from
  {
    if from + 14 > |s| then None
    else if UserMatchAt(s, from) then Some(from)
    else FirstUserMatch(s, from + 1)
  }

  /** `usernameMatch ? usernameMatch[1] : 'unknown'`
      (test-mongodb-connection.js:22-23). */
  function Username(uri: string): (r: string)
    ensures (forall p :: 0 <= p <= |uri| ==> !UserMatchAt(uri, p)) ==> r == "unknown"
    ensures forall p :: 0 <= p <= |uri| && UserMatchAt(uri, p)
                        && (forall q :: 0 <= q < p ==> !UserMatchAt(uri, q)) ==>
      r == uri[p + 14..ColonAt(uri, p + 14)]
  {
    match FirstUserMatch(uri, 0)
    case None => "unknown"
    case Some(p) => uri[p + 14..ColonAt(uri, p + 14)]
  }

  /** The user name is read back from a connection string of the usual
      shape. */
  lemma UsernameOfSrvUri(user: string, rest: string)
    requires user != "" && ':' !in user
    ensures Username(SrvScheme + user + ":" + rest) == user
  {
    var s := SrvScheme + user + ":" + rest;
    var i := 14 + |user|;
    assert s[..14] == SrvScheme;
    assert forall q :: 14 <= q < i ==> s[q] == user[q - 14];
    assert s[i] == ':';
    assert ColonAt(s, 14) == i;
    assert UserMatchAt(s, 0);
    assert s[14..i] == user;
  }
}
