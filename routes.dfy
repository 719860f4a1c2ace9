/**
 * The request handlers of the task-list API, as methods on one object that
 * holds the two tables and the caller's session. A request's JSON fields
 * arrive as optional strings; each handler returns the status code and
 * body it would send and updates the tables the way its commit would.
 */
module Routes {
  import opened Wrappers
  import opened Models
  import Decimal

  /** Python truthiness of an optional string field: present and non-empty. */
  predicate Given(field: Option<string>) {
    field.Some? && field.value != ""
  }

  datatype Response = Response(code: int, body: Json)

  function ErrorResponse(code: int, message: string): (r: Response)
    ensures r.code == code && r.body.JObj? && r.body.fields.Keys == {"error"}
    ensures r.body.fields["error"] == JStr(message)
  {
    Response(code, JObj(map["error" := JStr(message)]))
  }

  /** A JSON object with one field. */
  function Reply(code: int, key: string, value: Json): (r: Response) {
    Response(code, JObj(map[key := value]))
  }

  /** A JSON object with a message and one more field. */
  function ReplyWithMessage(code: int, message: string, key: string, value: Json): (r: Response) {
    Response(code, JObj(map["message" := JStr(message), key := value]))
  }

  /** What the login manager's unauthorized handler sends for a protected route. */
  const Unauthorized: Response := ErrorResponse(401, "Unauthorized access. Please log in.")

  /** The one answer for a task that is missing and for one that is someone else's. */
  const NotFound: Response := ErrorResponse(404, "Task not found or not authorized")

  /** The single failure answer of `login`, whatever made it fail. */
  const LoginFailed: Response := Response(401, JObj(map["authenticated" := JBool(false)]))
  const LoginOk: Response := Response(200, JObj(map["authenticated" := JBool(true)]))

  /** Texts of the exceptions the handlers turn into a 500. */
  const NoPasswordText: string := "'NoneType' object has no attribute 'encode'"
  const AnonymousText: string := "'AnonymousUserMixin' object has no attribute 'to_dict'"
  const DuplicateEmailText: string := "UNIQUE constraint failed: users.email"

  /** Some user other than the one at position `i` already has this email. */
  predicate EmailHeldByOther(users: seq<User>, i: nat, email: string) {
    exists j :: 0 <= j < |users| && j != i && users[j].email == email
  }

  /**
   * The constraints of the two tables: ascending primary keys below the
   * next key to hand out, unique emails, the non-empty fields that the
   * handlers' validation guarantees, the two statuses, and a live owner
   * for every task (the foreign key).
   */
  predicate TablesValid(users: seq<User>, tasks: seq<Task>, nextUid: int, nextTaskId: int) {
    && UidsAscending(users) && IdsAscending(tasks) && UniqueEmails(users)
    && 1 <= nextUid && 1 <= nextTaskId
    && (forall u :: u in users ==> 1 <= u.uid < nextUid && u.name != "" && u.email != "")
    && (forall t :: t in tasks ==>
          && 1 <= t.id < nextTaskId && t.title != "" && t.description != ""
          && (t.status == PendingStatus || t.status == CompleteStatus)
          && UserIndex(users, t.userId).Some?)
  }

  /**
   * What a valid store means for the schema: no two users share a uid or
   * an email, no two tasks share an id, and every task's owner is a row
   * of the users table.
   */
  lemma ValidTablesMeetSchema(users: seq<User>, tasks: seq<Task>, nextUid: int, nextTaskId: int)
    requires TablesValid(users, tasks, nextUid, nextTaskId)
    ensures forall i, j :: 0 <= i < |users| && 0 <= j < |users| && i != j ==>
      users[i].uid != users[j].uid && users[i].email != users[j].email
    ensures forall i, j :: 0 <= i < |tasks| && 0 <= j < |tasks| && i != j ==> tasks[i].id != tasks[j].id
    ensures forall t :: t in tasks ==> exists u :: u in users && u.uid == t.userId
  {
    forall t | t in tasks ensures exists u :: u in users && u.uid == t.userId {
      var k := UserIndex(users, t.userId).value;
      assert users[k] in users;
    }
  }

  /**
   * The record after the assignments of a profile update: each of name,
   * email and password changes only when supplied and non-empty, a new
   * password is stored hashed, and the uid never changes.
   */
  function ProfileChanges(u: User, name: Option<string>, email: Option<string>, password: Option<string>): (r: User)
    ensures r.uid == u.uid
    ensures r.name == (if Given(name) then name.value else u.name)
    ensures r.email == (if Given(email) then email.value else u.email)
    ensures if Given(password) then CheckPassword(r, password.value) else r.password == u.password
  {
    var withName := if Given(name) then u.(name := name.value) else u;
    var withEmail := if Given(email) then withName.(email := email.value) else withName;
    if Given(password) then SetPassword(withEmail, password.value) else withEmail
  }

  class TodoApp {
    /** The `users` table, in ascending uid order. */
    var users: seq<User>
    /** The `tasks` table, in ascending id order. */
    var tasks: seq<Task>
    /** What the session cookie holds: the logged-in user's get_id(), if any. */
    var session: Option<string>
    /** The keys the next inserted rows receive. */
    var nextUid: int
    var nextTaskId: int

    /** The store's constraints, and what the handlers' validation keeps true. */
    ghost predicate Valid()
      reads this
    {
      TablesValid(users, tasks, nextUid, nextTaskId)
    }

    /** The row of `current_user`, or None for the anonymous user. */
    function CurrentIndex(): (r: Option<nat>)
      reads this
      ensures r.Some? ==> r.value < |users|
      ensures r.Some? <==> session.Some? && LoadUser(users, session.value).Some?
      ensures r.Some? ==> LoadUser(users, session.value) == Some(users[r.value])
    {
      match session
      case None => None
      case Some(id) => LoadIndex(users, id)
    }

    function CurrentUser(): (r: Option<User>)
      reads this
      ensures r.Some? <==> CurrentIndex().Some?
      ensures r.Some? ==> r.value in users
    {
      match CurrentIndex()
      case Some(i) => Some(users[i])
      case None => None
    }

    /** An empty store and an anonymous session. */
    constructor ()
      ensures Valid()
      ensures users == [] && tasks == [] && session == None && nextUid == 1 && nextTaskId == 1
    {
      users, tasks, session := [], [], None;
      nextUid, nextTaskId := 1, 1;
    }

    /** POST /signup */
    method Signup(name: Option<string>, email: Option<string>, password: Option<string>) returns (resp: Response)
      requires Valid()
      modifies this`users, this`nextUid
      ensures Valid()
      ensures !(Given(name) && Given(email) && Given(password)) ==>
        resp == ErrorResponse(400, "All Credentials are required") && users == old(users) && nextUid == old(nextUid)
      ensures Given(name) && Given(email) && Given(password) && FindByEmail(old(users), email).Some? ==>
        resp == ErrorResponse(409, "Email already exists!") && users == old(users) && nextUid == old(nextUid)
      ensures Given(name) && Given(email) && Given(password) && FindByEmail(old(users), email).None? ==>
        var u := User(old(nextUid), name.value, email.value, Hash(password.value));
        && users == old(users) + [u]
        && nextUid == old(nextUid) + 1
        && (forall v :: v in old(users) ==> v.uid != u.uid && v.email != u.email)
        && CheckPassword(u, password.value)
        && resp == Response(201, JObj(map["success" := JBool(true), "user" := UserToDict(u)]))
    {
      if !Given(name) || !Given(email) || !Given(password) {
        return ErrorResponse(400, "All Credentials are required");
      }
      if FindByEmail(users, email).Some? {
        return ErrorResponse(409, "Email already exists!");
      }
      var u := User(nextUid, name.value, email.value, "");
      u := SetPassword(u, password.value);
      users := users + [u];
      nextUid := nextUid + 1;
      resp := Response(201, JObj(map["success" := JBool(true), "user" := UserToDict(u)]));
    }

    /**
     * POST /login. An unknown email and a wrong password give the same
     * answer and leave the session alone; a known email without a
     * password makes the hash check raise.
     */
    method Login(email: Option<string>, password: Option<string>) returns (resp: Response)
      requires Valid()
      modifies this`session
      ensures Valid()
      ensures var found := FindByEmail(users, email);
        && (found.None? ==> resp == LoginFailed && session == old(session))
        && (found.Some? && password.None? ==>
              resp == ErrorResponse(500, NoPasswordText) && session == old(session))
        && (found.Some? && password.Some? && !CheckPassword(users[found.value], password.value) ==>
              resp == LoginFailed && session == old(session))
        && (found.Some? && password.Some? && CheckPassword(users[found.value], password.value) ==>
              && resp == LoginOk
              && session == Some(GetId(users[found.value]))
              && CurrentUser() == Some(users[found.value]))
    {
      var found := FindByEmail(users, email);
      if found.None? {
        return LoginFailed;
      }
      var user := users[found.value];
      if password.None? {
        return ErrorResponse(500, NoPasswordText);
      }
      if !CheckPassword(user, password.value) {
        return LoginFailed;
      }
      LoadUserGetId(users, found.value);
      session := Some(GetId(user));
      resp := LoginOk;
    }

    /**
     * POST /logout. The route is not login-protected: for the anonymous
     * user `current_user.to_dict()` raises and the session stays as it was.
     */
    method Logout() returns (resp: Response)
      requires Valid()
      modifies this`session
      ensures Valid()
      ensures old(CurrentUser()).None? ==>
        resp == ErrorResponse(500, AnonymousText) && session == old(session)
      ensures old(CurrentUser()).Some? ==>
        && resp == ReplyWithMessage(200, "Logged out successfully", "user", UserToDict(old(CurrentUser()).value))
        && session == None && CurrentUser() == None
    {
      var current := CurrentUser();
      if current.None? {
        return ErrorResponse(500, AnonymousText);
      }
      var user := UserToDict(current.value);
      session := None;
      resp := ReplyWithMessage(200, "Logged out successfully", "user", user);
    }

    /** GET /profile */
    method GetProfile() returns (resp: Response)
      requires Valid()
      ensures CurrentUser().None? ==> resp == Unauthorized
      ensures CurrentUser().Some? ==>
        resp == Reply(200, "user", UserToDict(CurrentUser().value))
    {
      var current := CurrentUser();
      if current.None? {
        return Unauthorized;
      }
      resp := Reply(200, "user", UserToDict(current.value));
    }

    /**
     * PUT /profile/. Each of name, email and password changes only when it
     * is supplied and non-empty. An email another user already has fails
     * the commit; the rollback leaves the table as it was.
     */
    method UpdateProfile(name: Option<string>, email: Option<string>, password: Option<string>) returns (resp: Response)
      requires Valid()
      modifies this`users
      ensures Valid()
      ensures old(CurrentIndex()).None? ==> resp == Unauthorized && users == old(users)
      ensures old(CurrentIndex()).Some? && Given(email) && EmailHeldByOther(old(users), old(CurrentIndex()).value, email.value) ==>
        resp == ErrorResponse(500, DuplicateEmailText) && users == old(users)
      ensures old(CurrentIndex()).Some? && !(Given(email) && EmailHeldByOther(old(users), old(CurrentIndex()).value, email.value)) ==>
        var i := old(CurrentIndex()).value;
        && users == old(users)[i := ProfileChanges(old(users)[i], name, email, password)]
        && CurrentIndex() == Some(i)
        && resp == ReplyWithMessage(200, "Profile updated successfully", "user", UserToDict(users[i]))
    {
      var current := CurrentIndex();
      if current.None? {
        return Unauthorized;
      }
      var i := current.value;
      var u := users[i];
      if Given(name) {
        u := u.(name := name.value);
      }
      if Given(email) {
        u := u.(email := email.value);
      }
      if Given(password) {
        u := SetPassword(u, password.value);
      }
      assert users[i] in users;
      assert u == ProfileChanges(users[i], name, email, password);
      if !Given(email) {
        OwnEmailHeldByNoOther(users, i);
      }
      var committed := CommitUser(i, u);
      if !committed {
        return ErrorResponse(500, DuplicateEmailText);
      }
      assert CurrentIndex() == Some(i) by {
        var uid := Decimal.ParseInt(session.value).value;
        assert UserIndex(users, uid) == UserIndex(old(users), uid);
      }
      resp := ReplyWithMessage(200, "Profile updated successfully", "user", UserToDict(u));
    }

    /**
     * `db.session.commit()` after the assignments to the row at `i`: it
     * fails on the unique constraint when another user has the row's new
     * email, and then the rollback restores the table.
     */
    method CommitUser(i: nat, u: User) returns (committed: bool)
      requires Valid()
      requires i < |users| && u.uid == users[i].uid && u.name != "" && u.email != ""
      modifies this`users
      ensures Valid()
      ensures committed <==> !EmailHeldByOther(old(users), i, u.email)
      ensures users == if committed then old(users)[i := u] else old(users)
      ensures committed ==> forall x :: UserIndex(users, x) == UserIndex(old(users), x)
    {
      var holder := FindByEmail(users, Some(u.email));
      if holder.Some? && holder.value != i {
        assert users[holder.value].email == u.email;
        return false;
      }
      assert forall j :: 0 <= j < |users| && j != i ==> users[j].email != u.email by {
        forall j | 0 <= j < |users| && j != i ensures users[j].email != u.email {
          assert users[j] in users;
        }
      }
      ProfileUpdateKeepsValid(users, tasks, nextUid, nextTaskId, i, u);
      users := users[i := u];
      committed := true;
    }

    /** POST /tasks: a new task of the caller, with the default status. */
    method CreateTask(title: Option<string>, description: Option<string>) returns (resp: Response)
      requires Valid()
      modifies this`tasks, this`nextTaskId
      ensures Valid()
      ensures old(CurrentUser()).None? ==> resp == Unauthorized && tasks == old(tasks) && nextTaskId == old(nextTaskId)
      ensures old(CurrentUser()).Some? && !(Given(title) && Given(description)) ==>
        && resp == ErrorResponse(400, "Title and description are required")
        && tasks == old(tasks) && nextTaskId == old(nextTaskId)
      ensures old(CurrentUser()).Some? && Given(title) && Given(description) ==>
        var t := Task(old(nextTaskId), title.value, description.value, PendingStatus, old(CurrentUser()).value.uid);
        && tasks == old(tasks) + [t]
        && nextTaskId == old(nextTaskId) + 1
        && (forall s :: s in old(tasks) ==> s.id != t.id)
        && resp == ReplyWithMessage(201, "Task created succesfully", "task", TaskToDict(t))
    {
      var current := CurrentUser();
      if current.None? {
        return Unauthorized;
      }
      if !Given(title) || !Given(description) {
        return ErrorResponse(400, "Title and description are required");
      }
      var t := Task(nextTaskId, title.value, description.value, PendingStatus, current.value.uid);
      assert UserIndex(users, t.userId).Some? by {
        assert current.value in users;
      }
      tasks := tasks + [t];
      nextTaskId := nextTaskId + 1;
      resp := ReplyWithMessage(201, "Task created succesfully", "task", TaskToDict(t));
    }

    /** GET /tasks: the caller's tasks, in ascending id order. */
    method GetTasks() returns (resp: Response)
      requires Valid()
      ensures CurrentUser().None? ==> resp == Unauthorized
      ensures CurrentUser().Some? ==>
        resp == Reply(200, "tasks", JArr(TaskDicts(UserTasks(tasks, CurrentUser().value.uid))))
    {
      var current := CurrentUser();
      if current.None? {
        return Unauthorized;
      }
      var mine := UserTasks(tasks, current.value.uid);
      resp := Reply(200, "tasks", JArr(TaskDicts(mine)));
    }

    /** GET /tasks/<id> */
    method GetTaskById(id: int) returns (resp: Response)
      requires Valid()
      ensures CurrentUser().None? ==> resp == Unauthorized
      ensures CurrentUser().Some? ==>
        var found := LookupOwned(tasks, id, CurrentUser().value.uid);
        && (found.None? ==> resp == NotFound)
        && (found.Some? ==> resp == Reply(200, "task", TaskToDict(found.value)))
    {
      var current := CurrentUser();
      if current.None? {
        return Unauthorized;
      }
      var k := FindOwned(tasks, id, current.value.uid);
      if k.None? {
        return NotFound;
      }
      resp := Reply(200, "task", TaskToDict(tasks[k.value]));
    }

    /**
     * PUT /tasks/<id>. Title and description each change only when
     * supplied and non-empty; id, status, owner and every other task stay.
     */
    method UpdateTaskById(id: int, title: Option<string>, description: Option<string>) returns (resp: Response)
      requires Valid()
      modifies this`tasks
      ensures Valid()
      ensures old(CurrentUser()).None? ==> resp == Unauthorized && tasks == old(tasks)
      ensures old(CurrentUser()).Some? ==>
        var k := FindOwned(old(tasks), id, old(CurrentUser()).value.uid);
        && (k.None? ==> resp == NotFound && tasks == old(tasks))
        && (k.Some? ==>
              var t := old(tasks)[k.value];
              && |tasks| == |old(tasks)|
              && (forall j :: 0 <= j < |tasks| && j != k.value ==> tasks[j] == old(tasks)[j])
              && tasks[k.value].id == t.id && tasks[k.value].status == t.status && tasks[k.value].userId == t.userId
              && tasks[k.value].title == (if Given(title) then title.value else t.title)
              && tasks[k.value].description == (if Given(description) then description.value else t.description)
              && resp == ReplyWithMessage(201, "Task updated", "task", TaskToDict(tasks[k.value])))
    {
      var current := CurrentUser();
      if current.None? {
        return Unauthorized;
      }
      var k := FindOwned(tasks, id, current.value.uid);
      if k.None? {
        return NotFound;
      }
      var t := tasks[k.value];
      assert t in tasks;
      if Given(title) {
        t := t.(title := title.value);
      }
      if Given(description) {
        t := t.(description := description.value);
      }
      ReplaceTaskKeepsValid(users, tasks, nextUid, nextTaskId, k.value, t);
      tasks := tasks[k.value := t];
      resp := ReplyWithMessage(201, "Task updated", "task", TaskToDict(t));
    }

    /** DELETE /tasks/<id>: exactly that one row goes; the answer carries it. */
    method DeleteTaskById(id: int) returns (resp: Response)
      requires Valid()
      modifies this`tasks
      ensures Valid()
      ensures old(CurrentUser()).None? ==> resp == Unauthorized && tasks == old(tasks)
      ensures old(CurrentUser()).Some? ==>
        var k := FindOwned(old(tasks), id, old(CurrentUser()).value.uid);
        && (k.None? ==> resp == NotFound && tasks == old(tasks))
        && (k.Some? ==>
              && tasks == old(tasks)[..k.value] + old(tasks)[k.value + 1..]
              && |tasks| == |old(tasks)| - 1
              && (forall s :: s in tasks <==> s in old(tasks) && s.id != id)
              && resp == ReplyWithMessage(200, "Task deleted", "task", TaskToDict(old(tasks)[k.value])))
    {
      var current := CurrentUser();
      if current.None? {
        return Unauthorized;
      }
      var k := FindOwned(tasks, id, current.value.uid);
      if k.None? {
        return NotFound;
      }
      var t := tasks[k.value];
      RemoveAtDropsOnlyThatId(tasks, k.value);
      RemoveAtKeepsValid(users, tasks, nextUid, nextTaskId, k.value);
      tasks := tasks[..k.value] + tasks[k.value + 1..];
      resp := ReplyWithMessage(200, "Task deleted", "task", TaskToDict(t));
    }

    /**
     * PUT /tasks/<id>/complete. Only the status changes; on a task that is
     * already complete nothing changes, so a second call repeats the first.
     */
    method Complete(id: int) returns (resp: Response)
      requires Valid()
      modifies this`tasks
      ensures Valid()
      ensures old(CurrentUser()).None? ==> resp == Unauthorized && tasks == old(tasks)
      ensures old(CurrentUser()).Some? ==>
        var k := FindOwned(old(tasks), id, old(CurrentUser()).value.uid);
        && (k.None? ==> resp == NotFound && tasks == old(tasks))
        && (k.Some? ==>
              && tasks == old(tasks)[k.value := old(tasks)[k.value].(status := CompleteStatus)]
              && (old(tasks)[k.value].status == CompleteStatus ==> tasks == old(tasks))
              && resp == ReplyWithMessage(201, "Task marked as complete", "task", TaskToDict(tasks[k.value])))
    {
      var current := CurrentUser();
      if current.None? {
        return Unauthorized;
      }
      var k := FindOwned(tasks, id, current.value.uid);
      if k.None? {
        return NotFound;
      }
      var t := tasks[k.value].(status := CompleteStatus);
      assert tasks[k.value] in tasks;
      ReplaceTaskKeepsValid(users, tasks, nextUid, nextTaskId, k.value, t);
      tasks := tasks[k.value := t];
      resp := ReplyWithMessage(201, "Task marked as complete", "task", TaskToDict(t));
    }

    /** GET /tasks/completed */
    method GetCompleted() returns (resp: Response)
      requires Valid()
      ensures CurrentUser().None? ==> resp == Unauthorized
      ensures CurrentUser().Some? ==>
        resp == Reply(200, "tasks", JArr(TaskDicts(CompletedTasks(tasks, CurrentUser().value.uid))))
    {
      var current := CurrentUser();
      if current.None? {
        return Unauthorized;
      }
      var done := CompletedTasks(tasks, current.value.uid);
      resp := Reply(200, "tasks", JArr(TaskDicts(done)));
    }

    /**
     * Deleting a user row: the delete-orphan cascade on `User.tasks`
     * removes that user's tasks and no others. No route calls this.
     */
    method DeleteUser(uid: int)
      requires Valid()
      modifies this`users, this`tasks
      ensures Valid()
      ensures users == RemoveUser(old(users), uid) && tasks == RemoveOwnedTasks(old(tasks), uid)
      ensures UserTasks(tasks, uid) == []
      ensures forall t :: t in old(tasks) ==> (t in tasks <==> t.userId != uid)
    {
      RemovedUserKeepsOthers(users, uid);
      CascadeDeletesOnlyOwnTasks(tasks, uid, uid);
      users := RemoveUser(users, uid);
      tasks := RemoveOwnedTasks(tasks, uid);
    }
  }

  /** Under the unique constraint, no other row has the email of row `i`. */
  lemma OwnEmailHeldByNoOther(users: seq<User>, i: nat)
    requires i < |users| && UniqueEmails(users)
    ensures !EmailHeldByOther(users, i, users[i].email)
  {
  }

  /** A profile update that passes the commit keeps the tables valid. */
  lemma ProfileUpdateKeepsValid(users: seq<User>, tasks: seq<Task>, nextUid: int, nextTaskId: int, i: nat, u: User)
    requires TablesValid(users, tasks, nextUid, nextTaskId)
    requires i < |users| && u.uid == users[i].uid && u.name != "" && u.email != ""
    requires forall j :: 0 <= j < |users| && j != i ==> users[j].email != u.email
    ensures TablesValid(users[i := u], tasks, nextUid, nextTaskId)
    ensures forall x :: UserIndex(users[i := u], x) == UserIndex(users, x)
  {
    var updated := users[i := u];
    forall x ensures UserIndex(updated, x) == UserIndex(users, x) {
      SameUidsSameIndex(users, updated, x);
    }
    ReplaceUserKeepsRows(users, i, u, nextUid);
  }

  /** The user rows after a replacement that keeps the uid and a fresh email. */
  lemma ReplaceUserKeepsRows(users: seq<User>, i: nat, u: User, nextUid: int)
    requires UidsAscending(users) && UniqueEmails(users)
    requires forall v :: v in users ==> 1 <= v.uid < nextUid && v.name != "" && v.email != ""
    requires i < |users| && u.uid == users[i].uid && u.name != "" && u.email != ""
    requires forall j :: 0 <= j < |users| && j != i ==> users[j].email != u.email
    ensures UidsAscending(users[i := u]) && UniqueEmails(users[i := u])
    ensures forall v :: v in users[i := u] ==> 1 <= v.uid < nextUid && v.name != "" && v.email != ""
  {
    var updated := users[i := u];
    assert users[i] in users;
    forall v | v in updated ensures 1 <= v.uid < nextUid && v.name != "" && v.email != "" {
      var j :| 0 <= j < |updated| && updated[j] == v;
      assert j != i ==> users[j] in users;
    }
  }

  /** UserIndex looks only at uids. */
  lemma {:induction false} SameUidsSameIndex(a: seq<User>, b: seq<User>, x: int)
    requires |a| == |b| && forall j :: 0 <= j < |a| ==> a[j].uid == b[j].uid
    ensures UserIndex(a, x) == UserIndex(b, x)
    decreases |a|
  {
    if a != [] {
      SameUidsSameIndex(a[1..], b[1..], x);
    }
  }

  /** Removing the row at k of a table with unique ids removes just the rows with that row's id. */
  lemma RemoveAtDropsOnlyThatId(tasks: seq<Task>, k: nat)
    requires k < |tasks| && IdsAscending(tasks)
    ensures forall s :: s in tasks[..k] + tasks[k + 1..] <==> s in tasks && s.id != tasks[k].id
  {
    RemoveAtKeepsOthers(tasks, k);
    RemoveAtTakesNothingElse(tasks, k);
  }

  lemma RemoveAtKeepsOthers(tasks: seq<Task>, k: nat)
    requires k < |tasks|
    ensures forall s :: s in tasks && s.id != tasks[k].id ==> s in tasks[..k] + tasks[k + 1..]
  {
    var rest := tasks[..k] + tasks[k + 1..];
    forall s | s in tasks && s.id != tasks[k].id ensures s in rest {
      var j :| 0 <= j < |tasks| && tasks[j] == s;
      if j < k {
        assert rest[j] == s;
      } else {
        assert rest[j - 1] == s;
      }
    }
  }

  lemma RemoveAtTakesNothingElse(tasks: seq<Task>, k: nat)
    requires k < |tasks| && IdsAscending(tasks)
    ensures forall s :: s in tasks[..k] + tasks[k + 1..] ==> s in tasks && s.id != tasks[k].id
  {
    var rest := tasks[..k] + tasks[k + 1..];
    forall s | s in rest ensures s in tasks && s.id != tasks[k].id {
      var j :| 0 <= j < |rest| && rest[j] == s;
      if j < k {
        assert s == tasks[j];
      } else {
        assert s == tasks[j + 1];
      }
    }
  }

  /**
   * Replacing a task row by one with the same id and owner, a valid
   * status and non-empty text keeps the tables valid.
   */
  lemma ReplaceTaskKeepsValid(users: seq<User>, tasks: seq<Task>, nextUid: int, nextTaskId: int, k: nat, t: Task)
    requires TablesValid(users, tasks, nextUid, nextTaskId) && k < |tasks|
    requires t.id == tasks[k].id && t.userId == tasks[k].userId
    requires t.title != "" && t.description != "" && (t.status == PendingStatus || t.status == CompleteStatus)
    ensures TablesValid(users, tasks[k := t], nextUid, nextTaskId)
  {
    var updated := tasks[k := t];
    assert tasks[k] in tasks;
    forall s | s in updated
      ensures 1 <= s.id < nextTaskId && s.title != "" && s.description != ""
      ensures (s.status == PendingStatus || s.status == CompleteStatus) && UserIndex(users, s.userId).Some?
    {
      var j :| 0 <= j < |updated| && updated[j] == s;
      assert j != k ==> tasks[j] in tasks;
    }
  }

  /** Deleting one task row keeps the tables valid. */
  lemma RemoveAtKeepsValid(users: seq<User>, tasks: seq<Task>, nextUid: int, nextTaskId: int, k: nat)
    requires TablesValid(users, tasks, nextUid, nextTaskId) && k < |tasks|
    ensures TablesValid(users, tasks[..k] + tasks[k + 1..], nextUid, nextTaskId)
  {
    var rest := tasks[..k] + tasks[k + 1..];
    forall j | 0 <= j < |rest| ensures rest[j] == tasks[if j < k then j else j + 1] {
    }
    forall i, j | 0 <= i < j < |rest| ensures rest[i].id < rest[j].id {
      var i', j' := if i < k then i else i + 1, if j < k then j else j + 1;
      assert rest[i] == tasks[i'] && rest[j] == tasks[j'];
    }
    RemoveAtDropsOnlyThatId(tasks, k);
  }

  /** After the cascade every remaining task's owner still has a row. */
  lemma RemovedUserKeepsOthers(users: seq<User>, uid: int)
    ensures forall x :: x != uid && UserIndex(users, x).Some? ==> UserIndex(RemoveUser(users, uid), x).Some?
  {
    forall x | x != uid && UserIndex(users, x).Some?
      ensures UserIndex(RemoveUser(users, uid), x).Some?
    {
      assert users[UserIndex(users, x).value] in RemoveUser(users, uid);
    }
  }
}
