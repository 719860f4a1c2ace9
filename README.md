# Todo-List API: a verified model of its request handlers and records

The Todo-List API is a small Flask service. Users sign up and log in with a session cookie, and then create, read, update, delete and complete their own tasks. Its rules live in two files:

- `routes.py` holds the twelve request handlers.
- `models.py` holds the two SQLAlchemy records, `User` and `Task`.

This project models both files in Dafny.

- **`wrappers.dfy`**: `Option`, for a missing JSON field or a query with no row.
- **`decimal.dfy`** (`Decimal`): Python's `str(int)` and its inverse. `User.get_id` writes the uid as text into the session, and the user loader (`app.py`) reads it back. The round trip is what makes a login stick.
- **`models.dfy`** (`Models`): the records as datatypes and the password hash stand-in. It also holds `get_id`, both `to_dict` serialisers, the `User.tasks` relationship (owned rows in ascending id order), and the lookups the handlers run: `filter_by(email=…)`, `filter_by(id=…, user_id=…)` and the completed-task query. It ends with the delete-orphan cascade.
- **`routes.dfy`** (`Routes`): class `TodoApp` holds the users table, the tasks table, the session, and the next key each table hands out. Each handler is one method. It takes the request fields as `Option<string>` and returns a `Response` (status code and JSON body). It updates the tables as its commit would. The protected routes first resolve `current_user` and answer 401 when there is none. `Valid()` is the store's invariant, and every method keeps it:
  - ascending unique keys;
  - unique emails;
  - non-empty names, emails, titles and descriptions;
  - status `pending` or `complete`;
  - a live owner for every task.
- **`scenario.dfy`** (`Scenario`): one client session, from signup to the list of completed tasks. It is proved from the handlers' contracts alone.

A table is a sequence of rows in ascending primary-key order. A new row takes the next key, so appending it keeps the order. `order_by='Task.id'` is therefore a property of the table, not a sort.

Three behaviours of the code that a reader may not expect:

- `create_task` requires a non-empty description as well as a title.
- `/logout` is not login-protected. For an anonymous caller, `current_user.to_dict()` raises and the answer is a 500, not a 401.
- `login` with a registered email but no password field makes the hash check raise, which gives a 500 and not the generic 401.

## Model

| member | source | states |
|---|---|---|
| Models.SetPassword | models.py:16-20 | after `set_password(p)`, `check_password(p)` holds; uid, name and email are untouched |
| Models.GetId | models.py:22-23 | the id text parses back to exactly the uid |
| Decimal.IntRoundTrip | models.py:22-23 | parsing `str(n)` gives back n, for every integer |
| Decimal.IntToStringInjective | models.py:22-23 | two uids never produce the same id text |
| Models.LoadUserGetId | app.py:20-23 | the user loader, given the id a user's `get_id` produced, returns that user (keys are unique) |
| Models.UserToDict | models.py:25-30 | the dictionary has exactly the keys uid, name, email, holding the record's values; no password key |
| Models.UserDictHidesPassword | models.py:25-30 | two records serialise identically exactly when uid, name and email agree, so the password never affects the output |
| Models.TaskToDict | models.py:41-48 | the dictionary has exactly id, title, description, status, user_id, and reading it back gives the same task |
| Models.TaskDicts | routes.py:114 | the serialised list has one entry per task, each reading back to that task in the same position |
| Models.UserTasks | models.py:13-14 | `User.tasks`: a task is listed exactly when it is in the table and owned by the uid; ascending ids in the table give ascending ids in the list |
| Models.FindByEmail | routes.py:14 | `filter_by(email=…).first()`: the first row with that email; none exactly when the email is missing or no row has it |
| Models.LoadUser | app.py:20-23 | the user loader returns a row of the table whose uid is the number the stored text spells; none exactly when the text is not a number or no row has that uid |
| Models.UserIndex | app.py:23 | `User.query.get`: the row with that uid; none exactly when no row has it |
| Models.FindOwned | routes.py:123-124 | `filter_by(id=…, user_id=uid).first()`: a row with that id owned by uid; none exactly when no row has both |
| Models.LookupOwned | routes.py:137-138 | the row FindOwned points at, in the table, with that id and owner; none exactly when no such row exists |
| Models.ForeignTaskLooksMissing | routes.py:123-126 | inserting a task owned by someone else anywhere in the table changes no lookup of uid, so a foreign task answers like a missing one |
| Models.CompletedTasks | routes.py:197-199 | a task is listed exactly when it is in the table, owned by uid, and complete; ids ascend |
| Models.CompletedAreUserTasks | routes.py:197-199 | the completed list holds exactly the caller's `tasks` whose status is complete |
| Models.RemoveUser | models.py:13-14 | the users table after deleting a uid keeps exactly the other rows, still in ascending order |
| Models.RemoveUserKeepsEmailsUnique | models.py:10 | deleting a user keeps the unique constraint on emails |
| Models.RemoveOwnedTasks | models.py:13-14 | the cascade keeps exactly the tasks the deleted user does not own, still in ascending order |
| Models.CascadeDeletesOnlyOwnTasks | models.py:13-14 | after the cascade the deleted user owns no task, and every other user's task list is exactly what it was |
| Routes.ErrorResponse | routes.py:41 | an error answer is a JSON object whose only key is `error`, holding the message, sent with the given status code |
| Routes.ValidTablesMeetSchema | models.py:6-39 | in a store that satisfies `TablesValid` (the invariant every handler keeps): no two users share a uid (primary key) or an email (unique constraint), no two tasks share an id, and every task's owner is a row of the users table (the foreign key) |
| Routes.ProfileChanges | routes.py:73-78 | name, email and password each change only when supplied and non-empty; a new password checks; the uid never changes |
| Routes.TodoApp.CurrentIndex | app.py:20-23 | `current_user` is the row the user loader returns for the session's stored id, or none for the anonymous user |
| Routes.TodoApp.CurrentUser | app.py:20-23 | the current user, when there is one, is a row of the users table |
| Routes.TodoApp.constructor | app.py:11 | an empty store with an anonymous session |
| Routes.TodoApp.Signup | routes.py:32-53 | 400 and no change unless name, email and password are all non-empty; 409 and no change for a registered email; otherwise exactly one new row with a fresh uid (the next key advances by one; on 400 and 409 it stays), the given name and email, and a password that checks; emails stay unique |
| Routes.TodoApp.Login | routes.py:8-21 | 200, and a session that loads this user, exactly when the email's row exists and the password checks; an unknown email and a wrong password both give the same 401 `{authenticated: false}` and leave the session as it was; a missing password for a registered email gives 500 |
| Routes.TodoApp.Logout | routes.py:23-30 | with a current user: 200 with that user's dictionary, and the session becomes anonymous; without one: 500 and the session unchanged |
| Routes.TodoApp.GetProfile | routes.py:55-62 | 401 without a current user; otherwise 200 with that user's dictionary |
| Routes.TodoApp.UpdateProfile | routes.py:64-85 | 401 without a current user; 500 and no change when another user has the supplied email; otherwise only the caller's row changes, as ProfileChanges says, and the caller stays logged in |
| Routes.TodoApp.CommitUser | routes.py:80-85 | the commit succeeds exactly when no other row has the new email; on success only that row is replaced, on failure the table is restored |
| Routes.TodoApp.CreateTask | routes.py:87-108 | 401 without a current user; 400 and no change unless title and description are both non-empty; otherwise one task is appended with a fresh id (the next key advances by one; on 401 and 400 it stays), status pending and the caller as owner, answered 201 |
| Routes.TodoApp.GetTasks | routes.py:110-117 | 401 without a current user; otherwise 200 with the caller's tasks in ascending id order |
| Routes.TodoApp.GetTaskById | routes.py:119-131 | 401 without a current user; 404 unless the caller owns a task with that id; otherwise 200 with that task |
| Routes.TodoApp.UpdateTaskById | routes.py:133-156 | 401, or 404 with the table unchanged, unless the caller owns the task; otherwise title and description change only when supplied and non-empty, while id, status, owner and every other task stay, answered 201 |
| Routes.TodoApp.DeleteTaskById | routes.py:158-173 | 401, or 404 with the table unchanged, unless the caller owns the task; otherwise exactly that row goes, every other row stays, and the answer carries the deleted record |
| Routes.TodoApp.Complete | routes.py:175-191 | 401, or 404 with the table unchanged, unless the caller owns the task; otherwise only its status becomes complete, and on an already complete task nothing changes (idempotent) |
| Routes.TodoApp.GetCompleted | routes.py:193-202 | 401 without a current user; otherwise 200 with exactly the caller's complete tasks |
| Routes.TodoApp.DeleteUser | models.py:13-14 | deleting a user removes that row and exactly the tasks it owns; the deleted user owns nothing afterwards |
| Routes.RemoveAtDropsOnlyThatId | routes.py:167-169 | removing the row at one position of a table with unique ids removes exactly the rows with that id |
| Routes.ProfileUpdateKeepsValid | routes.py:73-80 | a profile change that keeps the uid, has non-empty fields and takes no other user's email keeps the store valid and every uid lookup unchanged |
| Routes.ReplaceTaskKeepsValid | routes.py:146-149 | changing a task's text or status in place keeps the store valid |
| Scenario.SignupToCompleted | routes.py:32-202 | signup 201, login 200, create 201, complete 201, then the completed list holds exactly that task, now complete |

## Left out

- HTTP plumbing (routing, `request.get_json`, `jsonify`): request fields are optional strings and responses are (code, JSON) values. A body that is not a JSON object, and field values that are not strings, are not modelled.
- Flask-Login's cookie signing and its `user_loader` callback mechanics: the session holds the text `get_id` produced, and `current_user` is the row the loader finds for it.
- werkzeug hashing: `Models.Hash` is a deterministic, unsalted stand-in that is not one-way. The model relies only on a hash checking against the password it was made from.
- SQLAlchemy transactions, Flask-Migrate and the environment configuration in `app.py`. A commit either takes effect whole or, on the unique-email failure, leaves the store unchanged.
- The generic `except Exception` branches that return 500 for failures of unseen code (for example, a database outage). The three failures the code itself provokes are modelled: duplicate email on profile update, logout while anonymous, and login without a password.
- The text of a 500 body is the exception's `str(e)`. The model writes the messages as Python words them. The duplicate-email one is shortened, because the driver's text also carries the failing SQL.
- Column length limits (`String(255)`, `String(120)`, `String(50)`) are not modelled: over-long values are accepted.
- Key allocation: keys come from per-table counters, like a database sequence. A database that reuses the largest deleted key is not modelled.
- `get_completed` has no `ORDER BY`, so its SQL order is unspecified. The model returns table order (ascending id).
- Models.CompletedTasks: does not promise the database's row order, because the query sets none; it promises membership and ascending ids.
- `Task.description` is nullable in the schema, but every handler path stores a non-empty string, so JSON `null` never appears.
- No route deletes a user. `DeleteUser` models only the ORM cascade that `User.tasks` declares.
- `Decimal.ParseInt` accepts an optional minus sign followed by one or more digits, so leading zeros and "-0" are accepted. A leading `+` and surrounding spaces, which Python's `int` also takes, are rejected. The session only ever holds text that `get_id` produced, so the difference never reaches the loader.
- Routes.TodoApp.CommitUser: does not model that the driver may also reject other constraint violations at commit; only the unique email is checked.
- Concurrency between requests is not modelled: each handler runs alone on the store.
