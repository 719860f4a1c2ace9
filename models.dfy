/**
 * The two ORM records of the task-list API (User, Task), their
 * serialisers, and the read-only queries the request handlers run on the
 * two tables. A table is a sequence of rows in ascending primary-key
 * order, which is the order a fresh row gets (it takes the next key) and
 * the order `User.tasks` promises.
 */
module Models {
  import opened Wrappers
  import Decimal

  /** A row of the `users` table. `password` holds a hash, never the plaintext. */
  datatype User = User(uid: int, name: string, email: string, password: string)

  /** A row of the `tasks` table; `userId` is the owner's uid. */
  datatype Task = Task(id: int, title: string, description: string, status: string, userId: int)

  /** The column default of `Task.status`, and the one other value it takes. */
  const PendingStatus: string := "pending"
  const CompleteStatus: string := "complete"

  /** The JSON values the handlers put in response bodies. */
  datatype Json =
    | JBool(b: bool)
    | JInt(i: int)
    | JStr(s: string)
    | JArr(items: seq<Json>)
    | JObj(fields: map<string, Json>)

  // ---------------------------------------------------------------------
  // Passwords

  /**
   * Stand-in for werkzeug's generate_password_hash. The model relies only
   * on CheckHash accepting the password a hash was made from.
   */
  function Hash(password: string): string {
    "hash$" + password
  }

  /** Stand-in for werkzeug's check_password_hash. */
  predicate CheckHash(hash: string, password: string) {
    hash == Hash(password)
  }

  /** User.check_password. */
  predicate CheckPassword(u: User, password: string) {
    CheckHash(u.password, password)
  }

  /** User.set_password: the record with a fresh hash of `password`; nothing else changes. */
  function SetPassword(u: User, password: string): (r: User)
    ensures CheckPassword(r, password)
    ensures r.uid == u.uid && r.name == u.name && r.email == u.email
  {
    u.(password := Hash(password))
  }

  // ---------------------------------------------------------------------
  // Identity and serialisation

  /** User.get_id: the uid as decimal text. */
  function GetId(u: User): (id: string)
    ensures Decimal.ParseInt(id) == Some(u.uid)
  {
    Decimal.IntRoundTrip(u.uid);
    Decimal.IntToString(u.uid)
  }

  /** User.to_dict: uid, name and email, and never the password hash. */
  function UserToDict(u: User): (d: Json)
    ensures d.JObj? && d.fields.Keys == {"uid", "name", "email"}
    ensures d.fields["uid"] == JInt(u.uid) && d.fields["name"] == JStr(u.name) && d.fields["email"] == JStr(u.email)
  {
    JObj(map["uid" := JInt(u.uid), "name" := JStr(u.name), "email" := JStr(u.email)])
  }

  /** Task.to_dict: every column of the row, under its column name. */
  function TaskToDict(t: Task): (d: Json)
    ensures d.JObj? && d.fields.Keys == {"id", "title", "description", "status", "user_id"}
    ensures TaskFromDict(d) == Some(t)
  {
    JObj(map["id" := JInt(t.id), "title" := JStr(t.title), "description" := JStr(t.description),
             "status" := JStr(t.status), "user_id" := JInt(t.userId)])
  }

  /** Reads a task back from its dictionary; None when a field is missing or mistyped. */
  function TaskFromDict(d: Json): (t: Option<Task>) {
    match d
    case JObj(f) =>
      if && "id" in f && f["id"].JInt?
         && "title" in f && f["title"].JStr?
         && "description" in f && f["description"].JStr?
         && "status" in f && f["status"].JStr?
         && "user_id" in f && f["user_id"].JInt?
      then Some(Task(f["id"].i, f["title"].s, f["description"].s, f["status"].s, f["user_id"].i))
      else None
    case _ => None
  }

  /** The list comprehension `[task.to_dict() for task in tasks]`. */
  function TaskDicts(ts: seq<Task>): (r: seq<Json>)
    ensures |r| == |ts|
    ensures forall i :: 0 <= i < |ts| ==> TaskFromDict(r[i]) == Some(ts[i])
  {
    seq(|ts|, i requires 0 <= i < |ts| => TaskToDict(ts[i]))
  }

  /**
   * The password never shows in a user's dictionary: two records give the
   * same dictionary exactly when their uid, name and email agree.
   */
  lemma UserDictHidesPassword(u: User, v: User)
    ensures UserToDict(u) == UserToDict(v) <==> u.uid == v.uid && u.name == v.name && u.email == v.email
  {
    if UserToDict(u) == UserToDict(v) {
      assert UserToDict(u).fields["uid"] == UserToDict(v).fields["uid"];
      assert UserToDict(u).fields["name"] == UserToDict(v).fields["name"];
      assert UserToDict(u).fields["email"] == UserToDict(v).fields["email"];
    }
  }

  // ---------------------------------------------------------------------
  // Table invariants

  /** Primary keys strictly ascend along the table (so they are unique). */
  predicate UidsAscending(users: seq<User>) {
    forall i, j :: 0 <= i < j < |users| ==> users[i].uid < users[j].uid
  }

  predicate IdsAscending(tasks: seq<Task>) {
    forall i, j :: 0 <= i < j < |tasks| ==> tasks[i].id < tasks[j].id
  }

  /** The unique constraint on `users.email`. */
  predicate UniqueEmails(users: seq<User>) {
    forall i, j :: 0 <= i < j < |users| ==> users[i].email != users[j].email
  }

  // ---------------------------------------------------------------------
  // Queries

  /** Position of the first user with this uid (`User.query.get`). */
  function UserIndex(users: seq<User>, uid: int): (r: Option<nat>)
    ensures r.Some? ==> r.value < |users| && users[r.value].uid == uid
    ensures r.None? <==> forall u :: u in users ==> u.uid != uid
    decreases |users|
  {
    if users == [] then None
    else if users[0].uid == uid then Some(0)
    else match UserIndex(users[1..], uid)
      case Some(k) => Some(k + 1)
      case None => None
  }

  /** Position of the row the session's user loader fetches for a stored id. */
  function LoadIndex(users: seq<User>, id: string): (r: Option<nat>)
    ensures r.Some? ==> r.value < |users| && Decimal.ParseInt(id) == Some(users[r.value].uid)
  {
    match Decimal.ParseInt(id)
    case None => None
    case Some(uid) => UserIndex(users, uid)
  }

  /**
   * The session's user loader: parse the stored id, then fetch that row;
   * None for text that is not a number or for a uid no row has.
   */
  function LoadUser(users: seq<User>, id: string): (r: Option<User>)
    ensures r.Some? ==> r.value in users && Decimal.ParseInt(id) == Some(r.value.uid)
    ensures r.None? <==>
      Decimal.ParseInt(id).None? || forall u :: u in users ==> u.uid != Decimal.ParseInt(id).value
  {
    match LoadIndex(users, id)
    case Some(i) => Some(users[i])
    case None => None
  }

  /** The id a login stores always loads back the user who logged in. */
  lemma LoadUserGetId(users: seq<User>, i: nat)
    requires i < |users| && UidsAscending(users)
    ensures LoadUser(users, GetId(users[i])) == Some(users[i])
  {
    var k := UserIndex(users, users[i].uid);
    assert users[i] in users;
    assert users[k.value].uid == users[i].uid;
  }

  /**
   * `User.query.filter_by(email=email).first()`. A missing email is
   * compared as NULL, which no row matches.
   */
  function FindByEmail(users: seq<User>, email: Option<string>): (r: Option<nat>)
    ensures r.Some? ==> email.Some? && r.value < |users| && users[r.value].email == email.value
    ensures r.Some? ==> forall j :: 0 <= j < r.value ==> users[j].email != email.value
    ensures r.None? <==> email.None? || forall u :: u in users ==> u.email != email.value
    decreases |users|
  {
    if email.None? || users == [] then None
    else if users[0].email == email.value then Some(0)
    else match FindByEmail(users[1..], email)
      case Some(k) => Some(k + 1)
      case None => None
  }

  /**
   * `Task.query.filter_by(id=id, user_id=uid).first()`: the position of
   * the task with this id, provided `uid` owns it.
   */
  function FindOwned(tasks: seq<Task>, id: int, uid: int): (r: Option<nat>)
    ensures r.Some? ==> r.value < |tasks| && tasks[r.value].id == id && tasks[r.value].userId == uid
    ensures r.None? <==> forall t :: t in tasks ==> t.id != id || t.userId != uid
    decreases |tasks|
  {
    if tasks == [] then None
    else if tasks[0].id == id && tasks[0].userId == uid then Some(0)
    else match FindOwned(tasks[1..], id, uid)
      case Some(k) => Some(k + 1)
      case None => None
  }

  /** The row FindOwned points at. */
  function LookupOwned(tasks: seq<Task>, id: int, uid: int): (r: Option<Task>)
    ensures r.Some? ==> r.value in tasks && r.value.id == id && r.value.userId == uid
    ensures r.None? <==> forall t :: t in tasks ==> t.id != id || t.userId != uid
  {
    match FindOwned(tasks, id, uid)
    case Some(i) => Some(tasks[i])
    case None => None
  }

  /**
   * Owner scoping: a task that belongs to someone else changes no lookup
   * of `uid`, so it answers exactly as if it were not in the table.
   */
  lemma {:induction false} ForeignTaskLooksMissing(before: seq<Task>, t: Task, after: seq<Task>, id: int, uid: int)
    requires t.userId != uid
    ensures LookupOwned(before + [t] + after, id, uid) == LookupOwned(before + after, id, uid)
    decreases |before|
  {
    if before == [] {
      assert before + [t] + after == [t] + after;
      assert ([t] + after)[1..] == after;
      assert before + after == after;
    } else {
      ForeignTaskLooksMissing(before[1..], t, after, id, uid);
      assert (before + [t] + after)[1..] == before[1..] + [t] + after;
      assert (before + after)[1..] == before[1..] + after;
    }
  }

  /** `User.tasks`: the rows owned by `uid`, in table (ascending id) order. */
  function UserTasks(tasks: seq<Task>, uid: int): (r: seq<Task>)
    ensures forall t :: t in r <==> t in tasks && t.userId == uid
    ensures IdsAscending(tasks) ==> IdsAscending(r)
    decreases |tasks|
  {
    if tasks == [] then []
    else
      var rest := UserTasks(tasks[1..], uid);
      if tasks[0].userId == uid then
        assert forall t :: t in rest ==> t in tasks[1..];
        [tasks[0]] + rest
      else rest
  }

  /** The `get_completed` query: the rows owned by `uid` whose status is complete. */
  function CompletedTasks(tasks: seq<Task>, uid: int): (r: seq<Task>)
    ensures forall t :: t in r <==> t in tasks && t.userId == uid && t.status == CompleteStatus
    ensures IdsAscending(tasks) ==> IdsAscending(r)
    decreases |tasks|
  {
    if tasks == [] then []
    else
      var rest := CompletedTasks(tasks[1..], uid);
      if tasks[0].userId == uid && tasks[0].status == CompleteStatus then
        assert forall t :: t in rest ==> t in tasks[1..];
        [tasks[0]] + rest
      else rest
  }

  /** What get_completed returns is what get_tasks returns, cut down to the complete ones. */
  lemma CompletedAreUserTasks(tasks: seq<Task>, uid: int)
    ensures forall t :: t in CompletedTasks(tasks, uid) <==> t in UserTasks(tasks, uid) && t.status == CompleteStatus
  {
  }

  // ---------------------------------------------------------------------
  // Cascade

  /** The users table after `db.session.delete(user)`. */
  function RemoveUser(users: seq<User>, uid: int): (r: seq<User>)
    ensures forall u :: u in r <==> u in users && u.uid != uid
    ensures UidsAscending(users) ==> UidsAscending(r)
    decreases |users|
  {
    if users == [] then []
    else
      var rest := RemoveUser(users[1..], uid);
      if users[0].uid != uid then
        assert forall u :: u in rest ==> u in users[1..];
        [users[0]] + rest
      else rest
  }

  /** Deleting a user cannot break the unique constraint on emails. */
  lemma {:induction false} RemoveUserKeepsEmailsUnique(users: seq<User>, uid: int)
    requires UniqueEmails(users)
    ensures UniqueEmails(RemoveUser(users, uid))
    decreases |users|
  {
    if users != [] {
      var rest := RemoveUser(users[1..], uid);
      assert UniqueEmails(users[1..]);
      RemoveUserKeepsEmailsUnique(users[1..], uid);
      if users[0].uid != uid {
        HeadEmailDiffers(users);
        ConsKeepsEmailsUnique(users[0], rest);
      }
    }
  }

  lemma HeadEmailDiffers(users: seq<User>)
    requires |users| > 0 && UniqueEmails(users)
    ensures forall v :: v in users[1..] ==> v.email != users[0].email
  {
    forall v | v in users[1..] ensures v.email != users[0].email {
      var j :| 0 <= j < |users| - 1 && users[1..][j] == v;
      assert users[j + 1] == v;
    }
  }

  lemma ConsKeepsEmailsUnique(u: User, rest: seq<User>)
    requires UniqueEmails(rest) && forall v :: v in rest ==> v.email != u.email
    ensures UniqueEmails([u] + rest)
  {
    var r := [u] + rest;
    forall i, j | 0 <= i < j < |r| ensures r[i].email != r[j].email {
      assert r[j] == rest[j - 1];
      if i > 0 {
        assert r[i] == rest[i - 1];
      } else {
        assert rest[j - 1] in rest;
      }
    }
  }

  /** The tasks table after the delete-orphan cascade removes the user's tasks. */
  function RemoveOwnedTasks(tasks: seq<Task>, uid: int): (r: seq<Task>)
    ensures forall t :: t in r <==> t in tasks && t.userId != uid
    ensures IdsAscending(tasks) ==> IdsAscending(r)
    decreases |tasks|
  {
    if tasks == [] then []
    else
      var rest := RemoveOwnedTasks(tasks[1..], uid);
      if tasks[0].userId != uid then
        assert forall t :: t in rest ==> t in tasks[1..];
        [tasks[0]] + rest
      else rest
  }

  /**
   * The cascade takes every task of the deleted user and no other: the
   * deleted user owns nothing afterwards, and every other user's task
   * list is exactly what it was, in the same order.
   */
  lemma {:induction false} CascadeDeletesOnlyOwnTasks(tasks: seq<Task>, uid: int, other: int)
    ensures UserTasks(RemoveOwnedTasks(tasks, uid), uid) == []
    ensures other != uid ==> UserTasks(RemoveOwnedTasks(tasks, uid), other) == UserTasks(tasks, other)
    decreases |tasks|
  {
    if tasks != [] {
      CascadeDeletesOnlyOwnTasks(tasks[1..], uid, other);
      var rest := RemoveOwnedTasks(tasks[1..], uid);
      if tasks[0].userId != uid {
        assert ([tasks[0]] + rest)[1..] == rest;
      }
    }
  }
}
