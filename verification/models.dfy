/** The two persisted tables, the login session and the errors a request can
    end with. Ids are the map keys, so a record never stores its own id. */
module Models {

  /** The three statuses a task may hold; matching is exact and
      case-sensitive, as app.py compares plain strings. */
  const ToDo: string := "A fazer"
  const Doing: string := "Fazendo"
  const Done: string := "Feita"

  predicate IsValidStatus(status: string) {
    status == ToDo || status == Doing || status == Done
  }

  /** A row of the `users` table. The password is kept and compared as plain
      text, as app.py does. */
  datatype User = User(name: string, email: string, password: string)

  /** A row of the `tasks` table. `dateCreated` is a clock reading and
      `totalTime` a duration in the same unit; app.py keeps the duration
      as the text of a time delta, "00:00:00" when nothing was recorded. */
  datatype Task = Task(
    description: string,
    category: string,
    status: string,
    dateCreated: int,
    totalTime: int,
    userId: int)

  /** Who the current request belongs to. */
  datatype Session = Anonymous | Authenticated(userId: int)

  /** The whole application state: both tables and the caller's session. */
  datatype App = App(users: map<int, User>, tasks: map<int, Task>, session: Session)

  /** The state after a request that added a row, and the id the row got. */
  datatype Inserted = Inserted(app: App, id: int)

  /** Why a request changed nothing. */
  datatype Error =
    | Unauthorized        // a login-protected route reached without a live session
    | NotFound            // no task row with the requested id
    | InvalidStatus       // a status outside the three allowed values
    | InvalidCredentials  // unknown email or wrong password, not told apart
    | DuplicateEmail      // the unique constraint on users.email refused the row

  /** The empty database, before anyone has registered. */
  const Initial: App := App(map[], map[], Anonymous)

  /** The ids of the tasks that belong to user `uid`. */
  function OwnedIds(tasks: map<int, Task>, uid: int): set<int> {
    set id | id in tasks && tasks[id].userId == uid
  }

  /** No two users share an email (the unique column constraint). */
  predicate UniqueEmails(users: map<int, User>) {
    forall i, j :: i in users && j in users && i != j ==> users[i].email != users[j].email
  }

  /** Every stored task carries one of the three allowed statuses. */
  predicate StatusesValid(tasks: map<int, Task>) {
    forall id :: id in tasks ==> IsValidStatus(tasks[id].status)
  }

  /** Every task belongs to a registered user. */
  predicate OwnersRegistered(app: App) {
    forall id :: id in app.tasks ==> app.tasks[id].userId in app.users
  }

  /** An authenticated session names a registered user. */
  predicate SessionLive(app: App) {
    app.session.Authenticated? ==> app.session.userId in app.users
  }

  /** The state invariant every request handler keeps. */
  predicate Wf(app: App) {
    && UniqueEmails(app.users)
    && StatusesValid(app.tasks)
    && OwnersRegistered(app)
    && SessionLive(app)
  }
}
