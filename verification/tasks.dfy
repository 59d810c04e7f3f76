/** The task routes: create (POST /tasks), show (GET /update/<id>), update
    (POST /update/<id>) and delete (GET /delete/<id>). All of them are
    login-protected; show, update and delete look the task up by id alone,
    without comparing its owner with the caller. Their id comes from the
    URL through Flask's integer converter, which matches digits only, so it
    is a natural number. */
module Tasks {
  import opened Results
  import opened Models
  import opened Auth
  import Ids

  /** Create a task for the logged-in user. The new row gets a fresh id,
      status "A fazer", a zero duration, the caller as owner and `now` as its
      creation time; every existing row, the users and the session stay as
      they were. */
  function CreateTask(app: App, description: string, category: string, now: int): (r: Result<Inserted, Error>)
    ensures r.Err? <==> CurrentUser(app).Err?
    ensures r.Err? ==> r.error == Unauthorized
    ensures r.Ok? ==>
      var a, id := r.value.app, r.value.id;
      && id !in app.tasks
      && a.tasks.Keys == app.tasks.Keys + {id}
      && a.tasks[id].description == description
      && a.tasks[id].category == category
      && a.tasks[id].status == ToDo
      && a.tasks[id].totalTime == 0
      && a.tasks[id].dateCreated == now
      && a.tasks[id].userId == app.session.userId
      && (forall k :: k in app.tasks ==> a.tasks[k] == app.tasks[k])
      && a.users == app.users
      && a.session == app.session
  {
    match CurrentUser(app)
    case Err(e) => Err(e)
    case Ok(uid) =>
      var id := Ids.NextId(app.tasks.Keys);
      var task := Task(description, category, ToDo, now, 0, uid);
      Ok(Inserted(app.(tasks := app.tasks[id := task]), id))
  }

  /** The task the update form is filled from: any existing task, whoever
      owns it; a missing id is NotFound. */
  function GetTask(app: App, id: nat): (r: Result<Task, Error>)
    ensures CurrentUser(app).Err? ==> r == Err(Unauthorized)
    ensures CurrentUser(app).Ok? && id !in app.tasks ==> r == Err(NotFound)
    ensures r.Ok? <==> CurrentUser(app).Ok? && id in app.tasks
    ensures r.Ok? ==> r.value == app.tasks[id]
  {
    match CurrentUser(app)
    case Err(e) => Err(e)
    case Ok(_) => if id in app.tasks then Ok(app.tasks[id]) else Err(NotFound)
  }

  /** Update a task. The checks run in app.py's order: session, then the
      id, then the status. A status outside the three allowed values stores
      nothing at all. Otherwise description, category and status are
      replaced; entering "Feita" sets the duration to `now` minus the
      creation time, computed afresh and not added to the earlier value, and
      any other status keeps the duration. The creation time, the owner and
      every other row are untouched. */
  function UpdateTask(app: App, id: nat, description: string, category: string, status: string, now: int)
    : (r: Result<App, Error>)
    ensures CurrentUser(app).Err? ==> r == Err(Unauthorized)
    ensures CurrentUser(app).Ok? && id !in app.tasks ==> r == Err(NotFound)
    ensures CurrentUser(app).Ok? && id in app.tasks && !IsValidStatus(status) ==> r == Err(InvalidStatus)
    ensures r.Ok? <==> CurrentUser(app).Ok? && id in app.tasks && IsValidStatus(status)
    ensures r.Ok? ==> r.value.tasks.Keys == app.tasks.Keys
    ensures r.Ok? ==>
      var prev, t := app.tasks[id], r.value.tasks[id];
      && t.description == description
      && t.category == category
      && t.status == status
      && t.dateCreated == prev.dateCreated
      && t.userId == prev.userId
      && (status == Done ==> t.totalTime == now - prev.dateCreated)
      && (status != Done ==> t.totalTime == prev.totalTime)
      && (forall k :: k in app.tasks && k != id ==> r.value.tasks[k] == app.tasks[k])
      && r.value.users == app.users
      && r.value.session == app.session
  {
    match CurrentUser(app)
    case Err(e) => Err(e)
    case Ok(_) =>
      if id !in app.tasks then Err(NotFound)
      else if !IsValidStatus(status) then Err(InvalidStatus)
      else
        var prev := app.tasks[id];
        var elapsed := if status == Done then now - prev.dateCreated else prev.totalTime;
        var task := prev.(description := description, category := category, status := status, totalTime := elapsed);
        Ok(app.(tasks := app.tasks[id := task]))
  }

  /** Delete a task: exactly the row with that id goes, whoever owns it, and
      every other row, the users and the session stay as they were. */
  function DeleteTask(app: App, id: nat): (r: Result<App, Error>)
    ensures CurrentUser(app).Err? ==> r == Err(Unauthorized)
    ensures CurrentUser(app).Ok? && id !in app.tasks ==> r == Err(NotFound)
    ensures r.Ok? <==> CurrentUser(app).Ok? && id in app.tasks
    ensures r.Ok? ==>
      && r.value.tasks.Keys == app.tasks.Keys - {id}
      && (forall k :: k in r.value.tasks ==> r.value.tasks[k] == app.tasks[k])
      && r.value.users == app.users
      && r.value.session == app.session
  {
    match CurrentUser(app)
    case Err(e) => Err(e)
    case Ok(_) =>
      if id !in app.tasks then Err(NotFound)
      else Ok(app.(tasks := app.tasks - {id}))
  }

  /** Creating a task adds exactly that task to its owner's list and leaves
      every other user's list alone. */
  lemma CreateAddsToOwnList(app: App, description: string, category: string, now: int, uid: int)
    requires CreateTask(app, description, category, now).Ok?
    ensures var ins := CreateTask(app, description, category, now).value;
      OwnedIds(ins.app.tasks, uid) ==
        if uid == app.session.userId then OwnedIds(app.tasks, uid) + {ins.id} else OwnedIds(app.tasks, uid)
  {
  }

  /** Deleting a task takes exactly that id out of every user's list. */
  lemma DeleteRemovesFromLists(app: App, id: nat, uid: int)
    requires DeleteTask(app, id).Ok?
    ensures OwnedIds(DeleteTask(app, id).value.tasks, uid) == OwnedIds(app.tasks, uid) - {id}
  {
  }

  /** Neither update nor delete compares the task's owner with the caller:
      any logged-in user reaches any user's task. */
  lemma OwnerNotChecked(app: App, id: nat, description: string, category: string, status: string, now: int)
    requires CurrentUser(app).Ok?
    requires id in app.tasks && app.tasks[id].userId != app.session.userId
    requires IsValidStatus(status)
    ensures GetTask(app, id) == Ok(app.tasks[id])
    ensures UpdateTask(app, id, description, category, status, now).Ok?
    ensures DeleteTask(app, id).Ok?
  {
  }

  /** The duration is recomputed each time a task enters "Feita", not
      accumulated: finishing, reopening and finishing again records only the
      time since creation, and the reopened task keeps the first duration. */
  lemma FinishReopenFinish(app: App, id: nat, d: string, c: string, t1: int, t2: int, t3: int)
    requires UpdateTask(app, id, d, c, Done, t1).Ok?
    ensures var a1 := UpdateTask(app, id, d, c, Done, t1).value;
      var r2 := UpdateTask(a1, id, d, c, ToDo, t2);
      && r2.Ok?
      && r2.value.tasks[id].totalTime == t1 - app.tasks[id].dateCreated
      && var r3 := UpdateTask(r2.value, id, d, c, Done, t3);
      && r3.Ok?
      && r3.value.tasks[id].totalTime == t3 - app.tasks[id].dateCreated
  {
  }

  /** Status matching is exact: another case or another language's word for
      an allowed status is refused, and nothing of the update is stored. */
  lemma StatusMatchIsExact(app: App, id: nat, description: string, category: string, now: int)
    requires CurrentUser(app).Ok? && id in app.tasks
    ensures UpdateTask(app, id, description, category, "feita", now) == Err(InvalidStatus)
    ensures UpdateTask(app, id, description, category, "Done", now) == Err(InvalidStatus)
  {
  }
}
