/** Sign-up validation and the log-in lookup over the registered users. */
module Accounts {
  import opened Wrappers
  import Text

  datatype User = User(username: string, email: string, password: string)

  /** Why a sign-up was refused, in the order the checks are made. */
  datatype SignupError = UsernameTooShort | PasswordTooShort | UsernameTaken | EmailTaken

  /** `i` is the first position whose user satisfies `p`. */
  ghost predicate FirstMatch(users: seq<User>, p: User -> bool, i: int) {
    0 <= i < |users| && p(users[i]) && forall j :: 0 <= j < i ==> !p(users[j])
  }

  /** `Array.prototype.find`, as a position. */
  function FindUser(users: seq<User>, p: User -> bool): (r: Option<nat>)
    ensures r.Some? ==> FirstMatch(users, p, r.value)
    ensures r.None? <==> forall j :: 0 <= j < |users| ==> !p(users[j])
  {
    if users == [] then None
    else if p(users[0]) then Some(0)
    else
      match FindUser(users[1..], p)
      case None => None
      case Some(i) => Some(i + 1)
  }

  function NamedAs(name: string): User -> bool {
    (u: User) => u.username == name
  }

  function WithEmail(email: string): User -> bool {
    (u: User) => u.email == email
  }

  function WithCredentials(name: string, password: string): User -> bool {
    (u: User) => u.username == name && u.password == password
  }

  ghost predicate HasUsername(users: seq<User>, name: string) {
    exists j :: 0 <= j < |users| && users[j].username == name
  }

  ghost predicate HasEmail(users: seq<User>, email: string) {
    exists j :: 0 <= j < |users| && users[j].email == email
  }

  /** No two registered users share a username or an email. */
  ghost predicate Distinct(users: seq<User>) {
    forall i, j :: 0 <= i < j < |users| ==>
      users[i].username != users[j].username && users[i].email != users[j].email
  }

  /** `handleSignup`: the trimmed username needs at least 3 characters, the
      password (untrimmed) at least 6, and neither the trimmed username nor
      the trimmed email may be registered already; the first failing check is
      reported. Otherwise exactly one user is appended. */
  function Signup(users: seq<User>, username: string, email: string, password: string)
    : (r: Result<seq<User>, SignupError>)
    ensures |Text.Trim(username)| < 3 ==> r == Err(UsernameTooShort)
    ensures |Text.Trim(username)| >= 3 && |password| < 6 ==> r == Err(PasswordTooShort)
    ensures (|Text.Trim(username)| >= 3 && |password| >= 6 && HasUsername(users, Text.Trim(username)))
            ==> r == Err(UsernameTaken)
    ensures (|Text.Trim(username)| >= 3 && |password| >= 6 && !HasUsername(users, Text.Trim(username))
             && HasEmail(users, Text.Trim(email)))
            ==> r == Err(EmailTaken)
    ensures r.Ok? <==>
      && |Text.Trim(username)| >= 3 && |password| >= 6
      && !HasUsername(users, Text.Trim(username)) && !HasEmail(users, Text.Trim(email))
    ensures r.Ok? ==> r.value == users + [User(Text.Trim(username), Text.Trim(email), password)]
  {
    var name := Text.Trim(username);
    var mail := Text.Trim(email);
    if |name| < 3 then Err(UsernameTooShort)
    else if |password| < 6 then Err(PasswordTooShort)
    else if FindUser(users, NamedAs(name)).Some? then Err(UsernameTaken)
    else if FindUser(users, WithEmail(mail)).Some? then Err(EmailTaken)
    else Ok(users + [User(name, mail, password)])
  }

  /** A successful sign-up keeps usernames and emails pairwise distinct. */
  lemma SignupKeepsDistinct(users: seq<User>, username: string, email: string, password: string)
    requires Distinct(users)
    requires Signup(users, username, email, password).Ok?
    ensures Distinct(Signup(users, username, email, password).value)
  {
    var r := Signup(users, username, email, password).value;
    forall i, j | 0 <= i < j < |r|
      ensures r[i].username != r[j].username && r[i].email != r[j].email
    {
      if j == |users| {
        assert r[i] == users[i];
      }
    }
  }

  /** `handleLogin`: the first user whose username equals the trimmed input
      and whose password equals the input as typed. */
  function Login(users: seq<User>, username: string, password: string): (r: Option<User>)
    ensures r.None? <==>
      forall j :: 0 <= j < |users| ==> users[j].username != Text.Trim(username) || users[j].password != password
    ensures r.Some? ==>
      exists i :: FirstMatch(users, WithCredentials(Text.Trim(username), password), i) && r.value == users[i]
  {
    match FindUser(users, WithCredentials(Text.Trim(username), password))
    case None => None
    case Some(i) => Some(users[i])
  }

  /** Right after signing up, logging in with the same username and password
      finds the new account. */
  lemma SignupThenLogin(users: seq<User>, username: string, email: string, password: string)
    requires Signup(users, username, email, password).Ok?
    ensures Login(Signup(users, username, email, password).value, username, password)
            == Some(User(Text.Trim(username), Text.Trim(email), password))
  {
    var r := Signup(users, username, email, password).value;
    var p := WithCredentials(Text.Trim(username), password);
    assert p(r[|users|]);
    forall j | 0 <= j < |users|
      ensures !p(r[j])
    {
      assert r[j] == users[j];
    }
  }
}
