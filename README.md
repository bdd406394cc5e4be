# teamtasks: sharing and permission model

A Dafny model of the core of a multi-user task-list web app. Users own task
lists, fill them with tasks, and share a list with another user either
read-only or with permission to edit. The model covers four things:

- **Store** (`models.dfy`, module `Models`): users, lists, tasks and list
  shares as id-keyed records (`Tables`), with the structural invariants the
  schema and the service layer keep:
  - usernames are unique;
  - every list has an owner who exists;
  - every task belongs to a list that exists;
  - every share names a list and a user that exist;
  - at most one share row exists per (list, user) pair.
- **Services** (`services.dfy`, class `Services.Store`): one method per
  service function. Each method changes the store's maps in place, keeps
  `Valid()`, and states its new state as a pure transition of `Tables`. The
  pure transitions carry the cascade, upsert and invariant-preservation
  properties.
- **Permission evaluator** (`permissions.dfy`, module `Permissions`): the
  handlers' inline `any(...)` checks, gathered into one `Access` level.
  - `Edit` goes to the owner, or to a user holding a share with `can_edit`.
  - `View` goes to any other user holding a share row.
  - `NoAccess` goes to everybody else.
  - Sharing needs ownership itself.
- **Request handlers** (`routes.dfy`, module `Routes`): each handler runs the
  same guard sequence as the Python handler. It checks existence (404), then
  permission (403), then input, and only then calls the service. Empty input
  is a 400 in the JSON API; the form handlers (`register`, `lists_new`,
  `share_list_view`) flash a message and re-render or redirect instead. Both
  are modelled as `BadRequest`. A
  rejected request changes nothing. Text fields are stripped as Python's
  `str.strip()` does (`text.dfy`, module `Text`).

`scenarios.dfy` holds client methods that use only the contracts. One
follows the service test. Another walks through sharing: alice shares her
list "Groceries" with bob read-only; bob's toggle of its task is refused;
alice upgrades the share to editing; bob's toggle succeeds; alice deletes the
list, and its tasks and shares go with it.

In these places the model follows the code:
- `get_user_lists` does not remove owned lists from `shared`. A list that
  the owner has shared with themselves appears in both sets
  (`SelfShareListedTwice`).
- `delete_list` checks no permission, and no route calls it.
- An unknown share target is reported with a flash message, not a 404. It is
  modelled as the `UnknownUser` response.
- A duplicate username is detected at commit time. It is modelled as one
  atomic check-then-insert.

## Model

| member | source | states |
|---|---|---|
| `Models.User.IsAdmin` | app/models.py:21-22 | a user with the default role, which every registered user has, is not an admin |
| `Models.User.CheckPassword` | app/models.py:18-19 | a password checks exactly when the stored credential was made from it |
| `Models.PasswordRoundTrip` | app/models.py:15-19 | after a password is set, that password and no other checks |
| `Models.User.SetPassword` | app/models.py:15-16 | the new credential accepts exactly the given password; username and role are untouched |
| `Models.Tables.AddUser` | app/models.py:6-10 | the new user is stored under the new id, every other user and every other table are unchanged, and the name becomes taken; uniqueness and the other invariants hold afterwards when the name was free |
| `Models.Tables.AddList` | app/models.py:29-33 | the list is stored under the new id; every other list and every other table are unchanged; all invariants hold afterwards when its owner exists |
| `Models.Tables.AddTask` | app/models.py:40-47 | the task is stored under the new id; every other task and every other table are unchanged; all invariants hold afterwards when its list exists |
| `Models.Tables.ShareUpsert` | app/services.py:37-46 | an existing pair row keeps its id and only its flag changes (no row added); otherwise exactly one row is added under the fresh id; rows of other pairs are unchanged; the pair is shared afterwards; with one row per pair before, every row of the pair carries the given flag |
| `Models.UpsertKeepsOneSharePerPair` | app/models.py:51-58 | the upsert never creates a second row for a pair, which is all that keeps one row per (list, user) since the schema has no uniqueness constraint |
| `Models.UpsertKeepsWellFormed` | app/services.py:37-46 | sharing an existing list with an existing user keeps every store invariant |
| `Models.Tables.SetDone` | app/services.py:54-60 | only that task's `done` changes, to the given value; the set of tasks and every other task stay the same; invariants preserved |
| `Models.Tables.RemoveTask` | app/services.py:62-68 | exactly that task is gone; every remaining task is unchanged; invariants preserved |
| `Models.Tables.DeleteList` | app/models.py:36-37 | the list is gone; no task or share references it; every task and share of another list survives unchanged; users untouched; no orphans afterwards |
| `Models.Tables.DeleteUserAsMapped` | app/models.py:13 | the schema's user cascade: exactly the user and the lists they own go, with those lists' tasks and shares; every other user, list, task and share survives unchanged; unique names, owned lists, attached tasks and one row per pair still hold |
| `Models.Tables.DeleteUser` | app/models.py:13 | corrected user cascade: as the schema's, and also exactly the shares naming the user go; everything else survives unchanged; all invariants preserved |
| `Models.UpsertLeavesOneRow` | app/services.py:37-46 | with at most one row per pair before, the upsert leaves exactly one row for the pair, carrying the given flag |
| `Models.UpsertTwice` | app/services.py:37-46 | re-sharing a pair adds no row and leaves one row holding the latest flag |
| `Models.SetDoneIdempotent` | app/services.py:54-60 | setting the same done value twice equals setting it once |
| `Models.DeleteUserAsMappedLeavesDanglingShare` | app/models.py:13 | with only the schema's cascades, deleting a user who holds a share on another user's list leaves a share naming a missing user |
| `Permissions.Access` | app/routes.py:113-120 | the owner always has Edit; NoAccess exactly when the user is not the owner and the pair has no share row |
| `Permissions.CanShare` | app/routes.py:133 | whoever may share a list also has Edit on it |
| `Permissions.AccessLevels` | app/routes.py:113-120 | with one row per pair, View exactly when the user is not the owner and holds a read-only row; the pair's single row decides Edit or View for a non-owner |
| `Permissions.OwnerAlwaysEdits` | app/routes.py:120 | the owner has Edit whatever the share rows are |
| `Permissions.EditShareCannotShare` | app/routes.py:132-134 | a non-owner with an edit share has Edit access yet may not share the list |
| `Permissions.RoleGrantsNothing` | app/models.py:21-22 | changing a user's role (e.g. to admin) changes nobody's access to any list |
| `Permissions.UpsertSetsAccess` | app/services.py:37-46 | after sharing a list with a user, their access is Edit if they own it or the flag is set, otherwise View |
| `Permissions.UpsertKeepsOtherAccess` | app/services.py:37-46 | sharing with one user changes no other (user, list) pair's access |
| `Text.SkipSpace` | app/routes.py:40 | the left scan: everything skipped is white space and it stops on a non-space or at the end |
| `Text.SkipSpaceBack` | app/routes.py:40 | the right scan: everything dropped is white space, and it stops after a non-space or at the left bound |
| `Text.Strip` | app/routes.py:40 | the result is no longer than the input and neither starts nor ends with white space |
| `Text.StripIsInfix` | app/routes.py:40 | the result is an infix of the input and everything removed around it is white space |
| `Text.StripEmptyIffAllSpace` | app/routes.py:42 | a stripped field is empty exactly when the raw field is all white space |
| `Text.StripKeepsTrimmed` | app/routes.py:40 | a string with no white space at either end is unchanged by stripping |
| `Text.StripIdempotent` | app/routes.py:40 | stripping twice equals stripping once |
| `Services.Store.CreateUser` | app/services.py:7-16 | fails and changes nothing exactly when the name is taken; otherwise adds one user with that name, the password's credential and the given role (by default `"user"`) under a fresh id |
| `Services.Store.GetUserByUsername` | app/services.py:18-19 | returns a user with that name, and none exactly when no user has it |
| `Services.Store.CreateList` | app/services.py:22-26 | adds exactly one list, with the given title and description (by default empty), owned by the given user, under a fresh id; nothing else changes |
| `Services.Store.GetUserLists` | app/services.py:28-32 | `owned` is exactly the lists the user owns; `shared` is exactly the lists with a share row for the user, and is empty when the user holds no shares |
| `Services.Store.FindShare` | app/services.py:38 | returns a row of the pair, and none exactly when the pair has no row |
| `Services.Store.ShareList` | app/services.py:37-46 | new state is the upsert; the returned row holds the pair and the flag (by default no editing); it is the existing row when there was one, else a fresh one |
| `Services.Store.CreateTask` | app/services.py:48-52 | adds exactly one task, not done, with the given title and description (by default empty), attached to the list, under a fresh id; other tasks unchanged |
| `Services.Store.ToggleTaskDone` | app/services.py:54-60 | none and no change exactly when the task is absent; otherwise only that task's `done` becomes the argument |
| `Services.Store.DeleteTask` | app/services.py:62-68 | false and no change exactly when the task is absent; otherwise true and exactly that task removed |
| `Services.Store.DeleteList` | app/services.py:70-76 | false and no change exactly when the list is absent; otherwise the list cascade-deleted with its tasks and shares |
| `Services.ListedIffVisible` | app/services.py:28-32 | a list is among a user's owned or shared lists exactly when the user's access to it is not NoAccess |
| `Services.UserSharesGiveLists` | app/services.py:28-35 | in a valid store the shared lists are exactly the lists the user's share rows point at, and each such row gives at least view access |
| `Services.SelfShareListedTwice` | app/services.py:28-32 | an owner who holds a share row on their own list finds it in both `owned` and `shared` |
| `Routes.Register` | app/routes.py:39-51 | BadRequest iff the stripped username or the password is empty; then Conflict iff the name is taken; otherwise one user with the stripped name and the default role; a rejection changes nothing |
| `Routes.ListsNew` | app/routes.py:92-99 | BadRequest iff the stripped title is empty; otherwise one list owned by the requester with the stripped title and description |
| `Routes.ViewList` | app/routes.py:113-122 | NotFound iff the list is missing; Forbidden iff the requester has NoAccess; otherwise the edit flag is true iff the access is Edit |
| `Routes.ShareListView` | app/routes.py:132-149 | NotFound for a missing list, then Forbidden unless the requester owns it, then BadRequest for an empty username, then UnknownUser for an unknown name; otherwise the upsert runs for the named user with the checkbox's flag; a rejection changes nothing |
| `Routes.ApiCreateTask` | app/routes.py:184-199 | NotFound for a missing list, then Forbidden unless the requester has Edit, then BadRequest for an empty stripped title; otherwise one not-done task with the stripped fields; a rejection changes nothing |
| `Routes.ApiToggleTask` | app/routes.py:216-229 | NotFound for a missing task, then Forbidden unless the requester has Edit on its list; otherwise only its `done` changes, to the value sent or true when none is sent |
| `Routes.ApiDeleteTask` | app/routes.py:239-248 | NotFound for a missing task, then Forbidden unless the requester has Edit on its list; otherwise the task is removed and the answer is true |
| `Scenarios.RegisterAlice` | app/routes.py:39-51 | registering "alice" in an empty store gives one user named "alice" with the default role |
| `Scenarios.CreateUserAndList` | tests/test_services.py:24-32 | creating "alice", her list "Groceries" and a task "Buy milk" gives those names and titles, the list owned by alice, the task in it and not done |
| `Scenarios.RegisterTwice` | app/routes.py:39-51 | registering a taken username again answers Conflict, and the one user holding the name is still the only user |
| `Scenarios.ShareByDefault` | app/services.py:37 | sharing without an edit flag creates a read-only row (the default `can_edit=False`, app/models.py:55), so a non-owner gets View |
| `Scenarios.SetUpGroceries` | app/services.py:7-52 | setup of the sharing walk-through: users alice and bob, alice's list with one task not done, nothing shared |
| `Scenarios.ShareThenEdit` | app/routes.py:216-229 | with a read-only share bob's toggle is Forbidden; after the share is upgraded it answers Ok(true); the list then deletes |
| `Scenarios.ShareWithBob` | app/routes.py:147 | sharing a list with bob through the handler gives bob Edit when the box is ticked and View otherwise |

## Left out

- Web plumbing is not modelled: templates, `flash`, `redirect`, `url_for`, `jsonify` and the JSON encoding of results (app/routes.py:165-173, 200-205). Handler outcomes are the `Response` datatype.
- Sessions and login are not modelled: `login`, `logout`, `login_required` and the user loader. The requester's id is a parameter of each handler. `ListsNew` requires the requester to be a stored user, because an authenticated session guarantees that.
- Password hashing is not modelled. The credential `HashOf(p)` stands for the salted hash of `p`, and `CheckPassword` compares passwords. Salting and the hash function are outside the model.
- The GET branches of `register` and `lists_new` only render a form, so they are not modelled.
- `index` and `api_get_lists` only call `get_user_lists` and serialise the result. Only `GetUserLists` is modelled.
- Timestamps (`created_at`) are not modelled.
- The column lengths (`String(80)` and the like) are not modelled.
- Transactions, rollback and concurrent requests are not modelled. Each service is one atomic step. A duplicate username is found by an atomic check, not by a commit-time `IntegrityError`.
- Ids come from one counter shared by all tables. Only their freshness matters; the database's own choice of ids is not modelled.
- Services.Store.GetUserLists: returns sets of list ids, not query-ordered lists of rows.
- Services.Store.GetUserByUsername: when several rows match, `.first()` picks by query order. The model picks any match. With unique usernames there is only one match.
- Services.Store.FindShare: when several rows match, `.first()` picks by query order. The model picks any match. With one row per pair there is only one match.
- Services.Store.ShareList: requires the list and the target user to exist. Its one caller guarantees this. The model does not cover what the database does with a share that names a missing list or user.
- Services.Store.CreateTask and Services.Store.CreateList: require the list, or the owner, to exist. The source passes loaded objects, so they do.
- Routes.ApiCreateTask: a JSON `title` or `description` that is missing, null or any falsy value (`false`, `0`, an empty list or object) reaches the model as the empty string, so an empty title is a 400. A truthy value that is not a string (a number, `true`, a list) makes `.strip()` raise and the request fail with a 500; the model takes strings only and does not cover that.
- Routes.ApiToggleTask: `done` is an optional boolean, and a missing value means true. The model does not cover Python truthiness of other JSON values. In the atomic model the handler's second 404 branch, for a task deleted between the check and the update, cannot happen.
- There is no delete-user operation. The user cascade (app/models.py:13) is modelled only as the pure functions `DeleteUserAsMapped` and `DeleteUser`.
- The browser script, the application factory and the bootstrap script are not modelled, because they hold no sharing or permission logic. The bootstrap script also creates a default admin account.

## Findings

| source | as written | input that shows it | evidently intended | confidence | as-written member | corrected member |
|---|---|---|---|---|---|---|
| app/models.py:13 | Deleting a User cascades only to the lists the user owns, and from there to those lists' tasks and shares. `ListShare.user` (app/models.py:58) has no cascade, so a share that names the user on somebody else's list stays. | alice (id 1) owns list 10; bob (id 2) holds share 20 on list 10; delete bob: share 20 remains and names the missing user 2 | no share outlives its user: deleting a user also removes every share naming them | not executed; latent, because no operation deletes users today | `Models.Tables.DeleteUserAsMapped`, `Models.DeleteUserAsMappedLeavesDanglingShare` | `Models.Tables.DeleteUser` |
