/**
 * A client of the handlers: one user's session from signup to the list of
 * completed tasks, checked against the handlers' contracts alone.
 */
module Scenario {
  import opened Wrappers
  import opened Models
  import opened Routes

  /** The row signup writes for name "A", email "a@x.com", password "p1". */
  function Alice(): User {
    User(1, "A", "a@x.com", Hash("p1"))
  }

  /** A fresh store, then signup of name "A", email "a@x.com", password "p1". */
  method SignUpAlice() returns (app: TodoApp, code: int)
    ensures fresh(app) && app.Valid()
    ensures app.users == [Alice()] && app.tasks == [] && app.nextTaskId == 1
    ensures code == 201
  {
    app := new TodoApp();
    assert Given(Some("A")) && Given(Some("a@x.com")) && Given(Some("p1"));
    var signup := app.Signup(Some("A"), Some("a@x.com"), Some("p1"));
    code := signup.code;
  }

  /** Sign up, then log in with the same credentials. */
  method SignUpThenLogIn() returns (app: TodoApp, codes: seq<int>)
    ensures fresh(app) && app.Valid()
    ensures app.users == [Alice()] && app.tasks == [] && app.nextTaskId == 1
    ensures app.CurrentUser() == Some(Alice())
    ensures codes == [201, 200]
  {
    var first;
    app, first := SignUpAlice();
    assert FindByEmail(app.users, Some("a@x.com")) == Some(0);
    assert CheckPassword(app.users[0], "p1");
    var login := app.Login(Some("a@x.com"), Some("p1"));
    codes := [first, login.code];
  }

  /** Create task "t1"/"d1" as the logged-in user, then mark it complete. */
  method CreateThenComplete(app: TodoApp) returns (codes: seq<int>)
    requires app.Valid()
    requires app.users == [Alice()] && app.tasks == [] && app.nextTaskId == 1
    requires app.CurrentUser() == Some(Alice())
    modifies app
    ensures app.Valid()
    ensures app.tasks == [Task(1, "t1", "d1", CompleteStatus, 1)]
    ensures app.CurrentUser() == Some(Alice())
    ensures codes == [201, 201]
  {
    assert Given(Some("t1")) && Given(Some("d1"));
    var created := app.CreateTask(Some("t1"), Some("d1"));
    assert app.tasks == [Task(1, "t1", "d1", PendingStatus, 1)];
    assert app.CurrentUser() == Some(Alice());
    var complete := app.Complete(1);
    assert FindOwned([Task(1, "t1", "d1", PendingStatus, 1)], 1, 1) == Some(0);
    codes := [created.code, complete.code];
  }

  /**
   * Signup 201, login 200, create 201 (pending), complete 201, and the
   * completed list holds exactly that task, now complete.
   */
  method SignupToCompleted() returns (codes: seq<int>, completed: Response)
    ensures codes == [201, 200, 201, 201]
    ensures completed == Reply(200, "tasks", JArr([TaskToDict(Task(1, "t1", "d1", CompleteStatus, 1))]))
  {
    var app, first := SignUpThenLogIn();
    var second := CreateThenComplete(app);
    codes := first + second;
    completed := app.GetCompleted();
    var done := Task(1, "t1", "d1", CompleteStatus, 1);
    assert CompletedTasks(app.tasks, 1) == [done];
    assert TaskDicts([done]) == [TaskToDict(done)];
  }
}
