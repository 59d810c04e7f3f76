/** Accounts and the login session: the `register`, `login` and `logout`
    routes, and the user loader behind every login-protected route. */
module Auth {
  import opened Results
  import opened Models
  import Ids

  /** The id of the logged-in user, as a login-protected route sees it: the
      session must name a user the loader still finds, otherwise the route
      is refused. */
  function CurrentUser(app: App): (r: Result<int, Error>)
    ensures r.Ok? <==> app.session.Authenticated? && app.session.userId in app.users
    ensures r.Ok? ==> r.value == app.session.userId && r.value in app.users
    ensures r.Err? ==> r.error == Unauthorized
  {
    match app.session
    case Anonymous => Err(Unauthorized)
    case Authenticated(uid) => if uid in app.users then Ok(uid) else Err(Unauthorized)
  }

  /** Some registered user already holds `email` (exact string equality). */
  predicate EmailTaken(users: map<int, User>, email: string) {
    exists id :: id in users && users[id].email == email
  }

  /** The user an email lookup returns first; when the emails are unique it
      is the only user with that email. Ties, which the unique constraint
      rules out, go to the lowest id. */
  function FindByEmail(users: map<int, User>, email: string): (r: Option<int>)
    ensures r.Some? <==> EmailTaken(users, email)
    ensures r.Some? ==> r.value in users && users[r.value].email == email
    ensures r.Some? ==> forall id :: id in users && users[id].email == email ==> r.value <= id
  {
    var holders := set id | id in users && users[id].email == email;
    assert forall id :: id in users && users[id].email == email ==> id in holders;
    if holders == {} then None else Some(Ids.Min(holders))
  }

  /** Register a user. A taken email is refused and nothing is stored;
      otherwise exactly one user is added under a fresh id, and the tasks and
      the session are untouched. Registering does not log the user in. */
  function Register(app: App, name: string, email: string, password: string): (r: Result<Inserted, Error>)
    ensures r.Err? <==> EmailTaken(app.users, email)
    ensures r.Err? ==> r.error == DuplicateEmail
    ensures r.Ok? ==>
      var a, id := r.value.app, r.value.id;
      && id !in app.users
      && a.users.Keys == app.users.Keys + {id}
      && a.users[id] == User(name, email, password)
      && (forall k :: k in app.users ==> a.users[k] == app.users[k])
      && a.tasks == app.tasks
      && a.session == app.session
  {
    if EmailTaken(app.users, email) then
      Err(DuplicateEmail)
    else
      var id := Ids.NextId(app.users.Keys);
      Ok(Inserted(app.(users := app.users[id := User(name, email, password)]), id))
  }

  /** Log in. The session moves to the user found by `email` when that
      user's stored password equals `password`; every failure is the same
      InvalidCredentials, whether the email is unknown or the password wrong. */
  function Login(app: App, email: string, password: string): (r: Result<App, Error>)
    ensures r.Err? ==> r.error == InvalidCredentials
    ensures !EmailTaken(app.users, email) ==> r.Err?
    ensures r.Ok? ==>
      && r.value.users == app.users
      && r.value.tasks == app.tasks
      && r.value.session.Authenticated?
      && r.value.session.userId in app.users
      && app.users[r.value.session.userId].email == email
      && app.users[r.value.session.userId].password == password
  {
    match FindByEmail(app.users, email)
    case None => Err(InvalidCredentials)
    case Some(id) =>
      if app.users[id].password == password then Ok(app.(session := Authenticated(id)))
      else Err(InvalidCredentials)
  }

  /** Log out (a login-protected route): the session returns to Anonymous
      and nothing else changes; without a live session it is refused. */
  function Logout(app: App): (r: Result<App, Error>)
    ensures r.Ok? <==> CurrentUser(app).Ok?
    ensures r.Err? ==> r.error == Unauthorized
    ensures r.Ok? ==>
      && r.value.session == Anonymous
      && r.value.users == app.users
      && r.value.tasks == app.tasks
  {
    match CurrentUser(app)
    case Err(e) => Err(e)
    case Ok(_) => Ok(app.(session := Anonymous))
  }

  /** With unique emails, login succeeds exactly when some user has both the
      email and the password, and then the session names that user. */
  lemma LoginSucceedsIff(app: App, email: string, password: string)
    requires UniqueEmails(app.users)
    ensures Login(app, email, password).Ok? <==>
      exists id :: id in app.users && app.users[id].email == email && app.users[id].password == password
    ensures forall id :: id in app.users && app.users[id].email == email && app.users[id].password == password ==>
      Login(app, email, password) == Ok(app.(session := Authenticated(id)))
  {
  }

  /** A failed login leaves the previous session in place, logged in or not. */
  lemma FailedLoginKeepsSession(app: App, email: string, password: string)
    requires forall id :: id in app.users && app.users[id].email == email ==> app.users[id].password != password
    ensures Login(app, email, password) == Err(InvalidCredentials)
  {
  }

  /** Logging out is not idempotent at the route: the second call finds no
      live session and is refused, though the session stays Anonymous. */
  lemma LogoutTwiceRefused(app: App)
    requires Logout(app).Ok?
    ensures Logout(Logout(app).value) == Err(Unauthorized)
  {
  }

  /** A second registration with the same email is refused, whatever the
      other fields. */
  lemma SecondRegistrationRefused(app: App, name: string, email: string, password: string, name': string, password': string)
    requires Register(app, name, email, password).Ok?
    ensures Register(Register(app, name, email, password).value.app, name', email, password') == Err(DuplicateEmail)
  {
  }
}
