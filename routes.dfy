/** The request handlers, without the web framework: each takes the
    requester's id and the request's fields, runs its guards in the order the
    handler does (existence, then permission, then input), and only then
    calls a service. A rejected request changes nothing. */
module Routes {
  import opened Models
  import opened Permissions
  import opened Services
  import opened Text

  /** What a handler answers: success with a value, or why it refused. */
  datatype Response<T> =
    | Ok(value: T)
    | NotFound      // the list or task does not exist (HTTP 404)
    | Forbidden     // the requester lacks the permission (HTTP 403)
    | BadRequest    // a required field is empty
    | Conflict      // the username is already taken
    | UnknownUser   // the user to share with does not exist

  /** An HTML checkbox counts as ticked when the form sends it with a
      non-empty value. */
  function CheckboxTicked(field: Option<string>): bool
  {
    match field
    case None => false
    case Some(v) => v != ""
  }

  /** Registration: both fields are required, then the username must be free.
      New users get the default role. */
  method Register(s: Store, rawUsername: string, password: string) returns (r: Response<int>)
    requires s.Valid()
    modifies s
    ensures s.Valid()
    ensures r == BadRequest <==> Strip(rawUsername) == "" || password == ""
    ensures r.Ok? || r == BadRequest || r == Conflict
    ensures r == Conflict <==>
      Strip(rawUsername) != "" && password != "" && old(s.Snapshot()).UsernameTaken(Strip(rawUsername))
    ensures r.Ok? ==>
      && r.value !in old(s.users)
      && s.Snapshot() == old(s.Snapshot()).AddUser(r.value, User(Strip(rawUsername), HashOf(password), DefaultRole))
    ensures !r.Ok? ==> s.Snapshot() == old(s.Snapshot())
  {
    var username := Strip(rawUsername);
    if username == "" || password == "" {
      return BadRequest;
    }
    var created := s.CreateUser(username, password, DefaultRole);
    if created.Some? {
      r := Ok(created.value);
    } else {
      r := Conflict;
    }
  }

  /** Creating a list: the title is required; the requester becomes the owner. */
  method ListsNew(s: Store, requester: int, rawTitle: string, rawDescription: string) returns (r: Response<int>)
    requires s.Valid() && requester in s.users
    modifies s
    ensures s.Valid()
    ensures r == BadRequest <==> Strip(rawTitle) == ""
    ensures r.Ok? || r == BadRequest
    ensures r.Ok? ==>
      && r.value !in old(s.lists)
      && s.Snapshot() == old(s.Snapshot()).AddList(r.value, TaskList(Strip(rawTitle), Strip(rawDescription), requester))
    ensures !r.Ok? ==> s.Snapshot() == old(s.Snapshot())
  {
    var title := Strip(rawTitle);
    var description := Strip(rawDescription);
    if title == "" {
      return BadRequest;
    }
    var id := s.CreateList(requester, title, description);
    r := Ok(id);
  }

  /** Viewing a list: 404 if it is missing, 403 unless the requester owns it
      or holds any share on it; otherwise whether the page offers editing. */
  method ViewList(s: Store, requester: int, listId: int) returns (r: Response<bool>)
    ensures r == NotFound <==> listId !in s.lists
    ensures r == Forbidden <==> listId in s.lists && Access(s.Snapshot(), requester, listId) == NoAccess
    ensures r.Ok? <==> listId in s.lists && Access(s.Snapshot(), requester, listId) != NoAccess
    ensures r.Ok? ==> (r.value <==> Access(s.Snapshot(), requester, listId) == Edit)
  {
    if listId !in s.lists {
      return NotFound;
    }
    var isOwner := s.lists[listId].ownerId == requester;
    var isSharedView := exists k | k in s.shares :: s.shares[k].listId == listId && s.shares[k].userId == requester;
    if !(isOwner || isSharedView) {
      return Forbidden;
    }
    var canEdit := isOwner ||
      exists k | k in s.shares :: s.shares[k].listId == listId && s.shares[k].userId == requester && s.shares[k].canEdit;
    r := Ok(canEdit);
  }

  /** Sharing a list: 404 if it is missing, 403 unless the requester owns it
      (an edit share is not enough), then a non-empty username naming an
      existing user; only then the share upsert, with the checkbox's flag. */
  method ShareListView(s: Store, requester: int, listId: int, rawUsername: string, canEditField: Option<string>)
    returns (r: Response<int>)
    requires s.Valid()
    modifies s
    ensures s.Valid()
    ensures r == NotFound <==> listId !in old(s.lists)
    ensures r == Forbidden <==> listId in old(s.lists) && !CanShare(old(s.Snapshot()), requester, listId)
    ensures r == BadRequest <==>
      listId in old(s.lists) && CanShare(old(s.Snapshot()), requester, listId) && Strip(rawUsername) == ""
    ensures r == UnknownUser <==>
      listId in old(s.lists) && CanShare(old(s.Snapshot()), requester, listId) && Strip(rawUsername) != "" &&
      !old(s.Snapshot()).UsernameTaken(Strip(rawUsername))
    ensures r.Ok? || r == NotFound || r == Forbidden || r == BadRequest || r == UnknownUser
    ensures r.Ok? ==> exists target ::
      && target in old(s.users) && old(s.users)[target].username == Strip(rawUsername)
      && s.Snapshot() == old(s.Snapshot()).ShareUpsert(listId, target, CheckboxTicked(canEditField), old(s.nextId))
      && r.value in s.shares && s.shares[r.value] == ListShare(listId, target, CheckboxTicked(canEditField))
    ensures !r.Ok? ==> s.Snapshot() == old(s.Snapshot())
  {
    if listId !in s.lists {
      return NotFound;
    }
    if s.lists[listId].ownerId != requester {
      return Forbidden;
    }
    var username := Strip(rawUsername);
    var canEdit := CheckboxTicked(canEditField);
    if username == "" {
      return BadRequest;
    }
    var target := s.GetUserByUsername(username);
    if target.None? {
      return UnknownUser;
    }
    var id := s.ShareList(listId, target.value, canEdit);
    r := Ok(id);
  }

  /** Creating a task through the API: 404 if the list is missing, 403 unless
      the requester has edit access, 400 if the title is empty; otherwise one
      new task, not done, in that list. */
  method ApiCreateTask(s: Store, requester: int, listId: int, rawTitle: string, rawDescription: string)
    returns (r: Response<int>)
    requires s.Valid()
    modifies s
    ensures s.Valid()
    ensures r == NotFound <==> listId !in old(s.lists)
    ensures r == Forbidden <==> listId in old(s.lists) && Access(old(s.Snapshot()), requester, listId) != Edit
    ensures r == BadRequest <==>
      listId in old(s.lists) && Access(old(s.Snapshot()), requester, listId) == Edit && Strip(rawTitle) == ""
    ensures r.Ok? || r == NotFound || r == Forbidden || r == BadRequest
    ensures r.Ok? ==>
      && r.value !in old(s.tasks)
      && s.Snapshot() == old(s.Snapshot()).AddTask(r.value, Task(Strip(rawTitle), Strip(rawDescription), false, listId))
    ensures !r.Ok? ==> s.Snapshot() == old(s.Snapshot())
  {
    if listId !in s.lists {
      return NotFound;
    }
    var allowed := s.lists[listId].ownerId == requester ||
      exists k | k in s.shares :: s.shares[k].listId == listId && s.shares[k].userId == requester && s.shares[k].canEdit;
    if !allowed {
      return Forbidden;
    }
    var title := Strip(rawTitle);
    var description := Strip(rawDescription);
    if title == "" {
      return BadRequest;
    }
    var id := s.CreateTask(listId, title, description);
    r := Ok(id);
  }

  /** Setting a task's done flag through the API: 404 if the task is missing,
      403 unless the requester has edit access to its list; otherwise the flag
      becomes the value sent, or true when none is sent. */
  method ApiToggleTask(s: Store, requester: int, taskId: int, done: Option<bool>) returns (r: Response<bool>)
    requires s.Valid()
    modifies s
    ensures s.Valid()
    ensures r == NotFound <==> taskId !in old(s.tasks)
    ensures r == Forbidden <==>
      taskId in old(s.tasks) && Access(old(s.Snapshot()), requester, old(s.tasks)[taskId].listId) != Edit
    ensures r.Ok? || r == NotFound || r == Forbidden
    ensures r.Ok? ==>
      var value := if done.Some? then done.value else true;
      r.value == value && s.Snapshot() == old(s.Snapshot()).SetDone(taskId, value)
    ensures !r.Ok? ==> s.Snapshot() == old(s.Snapshot())
  {
    if taskId !in s.tasks {
      return NotFound;
    }
    var listId := s.tasks[taskId].listId;
    var allowed := s.lists[listId].ownerId == requester ||
      exists k | k in s.shares :: s.shares[k].listId == listId && s.shares[k].userId == requester && s.shares[k].canEdit;
    if !allowed {
      return Forbidden;
    }
    var value := if done.Some? then done.value else true;
    var updated := s.ToggleTaskDone(taskId, value);
    if updated.None? {
      return NotFound;
    }
    r := Ok(updated.value.done);
  }

  /** Deleting a task through the API: 404 if the task is missing, 403 unless
      the requester has edit access to its list; otherwise the task is gone. */
  method ApiDeleteTask(s: Store, requester: int, taskId: int) returns (r: Response<bool>)
    requires s.Valid()
    modifies s
    ensures s.Valid()
    ensures r == NotFound <==> taskId !in old(s.tasks)
    ensures r == Forbidden <==>
      taskId in old(s.tasks) && Access(old(s.Snapshot()), requester, old(s.tasks)[taskId].listId) != Edit
    ensures r.Ok? || r == NotFound || r == Forbidden
    ensures r.Ok? ==> r.value && s.Snapshot() == old(s.Snapshot()).RemoveTask(taskId)
    ensures !r.Ok? ==> s.Snapshot() == old(s.Snapshot())
  {
    if taskId !in s.tasks {
      return NotFound;
    }
    var listId := s.tasks[taskId].listId;
    var allowed := s.lists[listId].ownerId == requester ||
      exists k | k in s.shares :: s.shares[k].listId == listId && s.shares[k].userId == requester && s.shares[k].canEdit;
    if !allowed {
      return Forbidden;
    }
    var success := s.DeleteTask(taskId);
    r := Ok(success);
  }
}
