# Task tracker state machine

A Dafny model of the logic inside the Flask route handlers of a small
multi-user to-do application (`app.py`). Users register with a name, an
email and a password, log in, and keep a list of tasks; each task has a
description, a category, a status out of "A fazer", "Fazendo" and "Feita",
a creation time, the time spent on it and its owner.

The model is an immutable in-memory store — `Models.App`, holding the
`users` table, the `tasks` table (both maps from id to record) and the
session (`Anonymous` or `Authenticated(userId)`) — and one pure transition
per route. A transition returns `Ok` with the new state, or `Err` with the
reason the request committed nothing: an exception or a refusal before the
database commit leaves the tables as they were.

Modules:

- `Results` — `Option` and `Result`.
- `Ids` — primary-key assignment: one more than the largest id in the table,
  1 for an empty table (SQLite's rule for an integer primary key without
  the AUTOINCREMENT keyword), with the induction lemmas that the largest and
  smallest element of a finite id set exist.
- `Models` — the `User` and `Task` records, the session, the error kinds,
  the status constants and the state invariant `Wf`.
- `Auth` — the user loader behind every login-protected route
  (`CurrentUser`), `Register`, `Login`, `Logout`.
- `Tasks` — `CreateTask`, `GetTask` (the task shown in the update form),
  `UpdateTask`, `DeleteTask`.
- `Listing` — `ListTasks`, the task page: the caller's tasks ordered by
  creation time, built by insertion over the task table.
- `Invariants` — every route keeps `Wf`, and an end-to-end scenario.

Inputs app.py takes from the environment are parameters: the clock
(`datetime.now()`) is the integer `now`, and a duration is the integer
difference of two clock readings. Form fields are plain arguments.

The model follows app.py as written:

- update, delete and the update form look the task up by id alone; any
  logged-in user reaches any user's task (`Tasks.OwnerNotChecked`);
- passwords are stored and compared as plain text, and emails are compared
  exactly (case-sensitive), which is what the unique column does;
- empty descriptions, categories, names, emails and passwords are accepted:
  the columns are only NOT NULL;
- log-out is a login-protected route, so a second log-out in a row is
  refused as unauthenticated (`Auth.LogoutTwiceRefused`);
- a login with an unknown email and one with a wrong password end in the
  same outcome;
- "Feita" recomputes the duration from the creation time on every entry;
  earlier durations are not added (`Tasks.FinishReopenFinish`).

## Model

| member | source | states |
|---|---|---|
| Ids.NextId | app.py:34 | a new row's id is fresh and above every id in the table: 1 for an empty table, otherwise one more than the largest id in use |
| Auth.CurrentUser | app.py:26-28 | a login-protected route proceeds exactly when the session names a user the loader finds, and then acts as that user; otherwise it is Unauthorized |
| Auth.FindByEmail | app.py:143 | the email lookup finds a user exactly when some user holds that email, and the user found holds it |
| Auth.Register | app.py:121-132 | a taken email is refused with DuplicateEmail; otherwise exactly one user with the given fields is added under a fresh id, tasks and session unchanged |
| Auth.Login | app.py:136-150 | every failure is the same InvalidCredentials; an unknown email always fails; on success only the session changes and it names a user whose email and password both match |
| Auth.Logout | app.py:154-159 | with a live session the session becomes Anonymous and the tables are unchanged; without one the route is refused |
| Auth.LoginSucceedsIff | app.py:143-146 | with unique emails, login succeeds if and only if some user has both the email and the password, and then the session is that user's id |
| Auth.FailedLoginKeepsSession | app.py:145-150 | with unique emails, when no user with the email has that password, login fails and the previous session stays |
| Auth.LogoutTwiceRefused | app.py:154-158 | after a successful log-out a second log-out is refused as Unauthorized |
| Auth.SecondRegistrationRefused | app.py:69 | after one registration succeeds, registering the same email again is refused, whatever the other fields |
| Tasks.CreateTask | app.py:105-116 | for a logged-in caller exactly one task is added under a fresh id with the given description and category, status "A fazer", zero duration, the caller as owner and creation time now; every other row, the users and the session are unchanged; without a session nothing changes |
| Tasks.GetTask | app.py:173-177 | the update form shows the stored task for any existing id whoever owns it; a missing id is NotFound, a missing session Unauthorized |
| Tasks.UpdateTask | app.py:173-194 | checks session, then id, then status; a status outside the three allowed values stores nothing; otherwise description, category and status are replaced, entering "Feita" sets the duration to now minus the creation time, other statuses keep it, and creation time, owner and all other rows are unchanged |
| Tasks.DeleteTask | app.py:161-171 | exactly the task with that id is removed and all other rows, users and session are unchanged; a missing id is NotFound and changes nothing |
| Tasks.CreateAddsToOwnList | app.py:110-118 | creating a task adds exactly its id to the caller's task list and leaves every other user's list as it was |
| Tasks.DeleteRemovesFromLists | app.py:165-168 | deleting a task removes exactly its id from every user's task list |
| Tasks.OwnerNotChecked | app.py:161-177 | a logged-in user can show, update and delete a task owned by another user |
| Tasks.FinishReopenFinish | app.py:187-188 | finishing, reopening and finishing again records only the time since creation, and reopening keeps the first duration |
| Tasks.StatusMatchIsExact | app.py:184-185 | a differently cased or translated status is refused with InvalidStatus |
| Listing.ListTasks | app.py:117-119 | the task page lists every task of the logged-in user exactly once with its stored fields and nothing else, creation times non-decreasing; without a session it is refused |
| Listing.ListingsAgree | app.py:118 | any two listings of the same user's tasks hold the same entries and have the same length, so they can differ only in the order of tasks created at the same time |
| Listing.ListingUnique | app.py:118 | when no two of the user's tasks were created at the same instant, the task list is completely determined |
| Invariants.RegisterKeepsWf | app.py:69 | registration keeps emails unique, statuses allowed, owners registered and the session live |
| Invariants.LoginKeepsWf | app.py:143-146 | logging in keeps the state invariant; the session names a registered user |
| Invariants.LogoutKeepsWf | app.py:154-158 | logging out keeps the state invariant |
| Invariants.CreateTaskKeepsWf | app.py:110 | creating a task keeps the state invariant: the new task has an allowed status and a registered owner |
| Invariants.UpdateTaskKeepsWf | app.py:184-185 | updating a task keeps every stored status among the three allowed values |
| Invariants.DeleteTaskKeepsWf | app.py:165-168 | deleting a task keeps the state invariant |
| Invariants.RegisterThenLogin | app.py:125-146 | in any well-formed state, logging in right after a successful registration with the same email and password succeeds and the session names the new user |
| Invariants.FirstUserScenario | app.py:105-188 | from an empty database, register, log in, create and finish a task: user and task get id 1, the task starts as "A fazer" with no time and ends as "Feita" with the time since creation |

## Left out

- HTTP routing, redirects, HTML templates, Bootstrap and the returned error
  messages: presentation only. The GET forms of `/register` and `/login`
  and the `/` page only render templates and are not modelled.
- SQLAlchemy, Flask-Migrate and the SQLite configuration: each handler is
  one atomic transition. Commit failures other than the unique email
  constraint (disk, locking) are not modelled.
- The flask_login internals and the constant `UserMixin` properties; only
  the session state and the user loader are kept.
- The text form of durations (`str` of a time delta, default "00:00:00"):
  durations are integers; a clock that goes backwards gives a negative
  duration, as the subtraction in app.py would.
- The 200-character column lengths: SQLite does not enforce them.
- A form field missing from a request (an HTTP 400 in Flask): the model
  always receives every field.
- Listing.ListTasks: the order among tasks with the same creation time is
  left open, because the query orders by creation time alone.
- Auth.FindByEmail: when several users share an email, which the unique
  constraint prevents, the model takes the lowest id; the query itself
  fixes no order.
- Ids.NextId: ids are unbounded integers; when the largest id already is
  2^63 - 1, SQLite picks a random unused id instead, which is not modelled.
- URL routing of task ids: `<int:id>` matches digits only, so a negative
  id never reaches a handler; the task routes take a natural-number id.
- The unused `asyncio` import.
