/** `POST /api/auth/login` (app/api/auth/login/route.ts): the two fixed
    accounts are read from the environment, where either variable may be
    unset. */
module Login {
  import opened Wrappers
  import opened Text

  /** The request body's fields. */
  datatype Credentials = Credentials(username: Option<string>, password: Option<string>)

  /** One account's configured name and password. */
  datatype Account = Account(username: Option<string>, password: Option<string>)

  datatype LoginResponse =
    | LoggedIn(username: string)
    | LoginRejected(status: nat, error: string)

  /** The pair matches the account: both strict comparisons hold (an unset
      variable matches no string). */
  predicate Matches(username: string, password: string, a: Account) {
    Some(username) == a.username && Some(password) == a.password
  }

  /** The handler: `body` is `None` when the JSON cannot be read. */
  function Login(body: Option<Credentials>, a: Account, b: Account): (r: LoginResponse)
    ensures body.None? ==> r == LoginRejected(500, "Login failed")
    ensures body.Some? && (!Truthy(body.value.username) || !Truthy(body.value.password)) ==>
      r == LoginRejected(400, "Username and password are required")
    ensures r.LoggedIn? <==>
      && body.Some? && Truthy(body.value.username) && Truthy(body.value.password)
      && (Matches(body.value.username.value, body.value.password.value, a)
          || Matches(body.value.username.value, body.value.password.value, b))
    ensures r.LoggedIn? ==> Some(r.username) == body.value.username
    ensures body.Some? && Truthy(body.value.username) && Truthy(body.value.password) && r.LoginRejected? ==>
      r == LoginRejected(401, "Invalid username or password")
  {
    if body.None? then LoginRejected(500, "Login failed")
    else
      var c := body.value;
      if !Truthy(c.username) || !Truthy(c.password) then
        LoginRejected(400, "Username and password are required")
      else if Matches(c.username.value, c.password.value, a) then LoggedIn(c.username.value)
      else if Matches(c.username.value, c.password.value, b) then LoggedIn(c.username.value)
      else LoginRejected(401, "Invalid username or password")
  }

  /** Name and password are checked as a pair: A's name with B's password is
      refused unless that happens to be B's own pair. */
  lemma MixedPairRefused(a: Account, b: Account)
    requires a.username.Some? && b.password.Some? && a.username.value != "" && b.password.value != ""
    requires a.password != b.password && a.username != b.username
    ensures Login(Some(Credentials(a.username, b.password)), a, b) == LoginRejected(401, "Invalid username or password")
  {
  }

  /** With neither account configured nobody can sign in. */
  lemma UnconfiguredRefusesAll(body: Option<Credentials>)
    ensures !Login(body, Account(None, None), Account(None, None)).LoggedIn?
  {
  }
}
