/** The state invariant (unique emails, allowed statuses, registered
    owners, a live session) holds initially and is kept by every route. */
module Invariants {
  import opened Results
  import opened Models
  import opened Auth
  import opened Tasks

  lemma InitialWf()
    ensures Wf(Initial)
  {
  }

  lemma RegisterKeepsWf(app: App, name: string, email: string, password: string)
    requires Wf(app)
    requires Register(app, name, email, password).Ok?
    ensures Wf(Register(app, name, email, password).value.app)
  {
  }

  lemma LoginKeepsWf(app: App, email: string, password: string)
    requires Wf(app)
    requires Login(app, email, password).Ok?
    ensures Wf(Login(app, email, password).value)
  {
  }

  lemma LogoutKeepsWf(app: App)
    requires Wf(app)
    requires Logout(app).Ok?
    ensures Wf(Logout(app).value)
  {
  }

  lemma CreateTaskKeepsWf(app: App, description: string, category: string, now: int)
    requires Wf(app)
    requires CreateTask(app, description, category, now).Ok?
    ensures Wf(CreateTask(app, description, category, now).value.app)
  {
  }

  lemma UpdateTaskKeepsWf(app: App, id: nat, description: string, category: string, status: string, now: int)
    requires Wf(app)
    requires UpdateTask(app, id, description, category, status, now).Ok?
    ensures Wf(UpdateTask(app, id, description, category, status, now).value)
  {
  }

  lemma DeleteTaskKeepsWf(app: App, id: nat)
    requires Wf(app)
    requires DeleteTask(app, id).Ok?
    ensures Wf(DeleteTask(app, id).value)
  {
  }

  /** In any well-formed state, a user who has just registered can log in
      with the same email and password, and the session then names the new
      user. */
  lemma RegisterThenLogin(app: App, name: string, email: string, password: string)
    requires Wf(app)
    requires Register(app, name, email, password).Ok?
    ensures var ins := Register(app, name, email, password).value;
      Login(ins.app, email, password) == Ok(ins.app.(session := Authenticated(ins.id)))
  {
    var ins := Register(app, name, email, password).value;
    RegisterKeepsWf(app, name, email, password);
    LoginSucceedsIff(ins.app, email, password);
  }

  /** From an empty database: register, log in, create a task and finish
      it. The first user and the first task both get id 1, the task starts
      as "A fazer" with no time recorded and ends as "Feita" with the time
      elapsed since its creation. */
  lemma FirstUserScenario(name: string, email: string, password: string,
                          description: string, category: string, created: int, finished: int)
    ensures
      var reg := Register(Initial, name, email, password);
      && reg.Ok? && reg.value.id == 1
      && var login := Login(reg.value.app, email, password);
      && login.Ok? && login.value.session == Authenticated(1)
      && var made := CreateTask(login.value, description, category, created);
      && made.Ok? && made.value.id == 1
      && made.value.app.tasks[1].status == ToDo
      && made.value.app.tasks[1].totalTime == 0
      && var done := UpdateTask(made.value.app, 1, description, category, Done, finished);
      && done.Ok?
      && done.value.tasks[1].status == Done
      && done.value.tasks[1].totalTime == finished - created
  {
  }
}
