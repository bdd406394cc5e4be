/** The service layer: each operation is one atomic change to the store,
    returning `None` or `false` when its target is absent. */
module Services {
  import opened Models
  import opened Permissions

  /** The owned and the shared lists of one user, as list ids. */
  datatype UserLists = UserLists(owned: set<int>, shared: set<int>)

  class Store {
    var users: map<int, User>
    var lists: map<int, TaskList>
    var tasks: map<int, Task>
    var shares: map<int, ListShare>
    /** The next primary key to hand out; every id in use is below it. */
    var nextId: int

    function Snapshot(): Tables
      reads this
    {
      Tables(users, lists, tasks, shares)
    }

    ghost predicate Valid()
      reads this
    {
      Snapshot().WellFormed() && Snapshot().IdsBelow(nextId)
    }

    constructor ()
      ensures Valid()
      ensures Snapshot() == Tables(map[], map[], map[], map[])
    {
      users, lists, tasks, shares := map[], map[], map[], map[];
      nextId := 0;
    }

    /** Adds a user unless the username is taken, as one check-then-insert. */
    method CreateUser(username: string, password: string, role: string := DefaultRole) returns (r: Option<int>)
      requires Valid()
      modifies this
      ensures Valid()
      ensures r.None? <==> old(Snapshot()).UsernameTaken(username)
      ensures r.None? ==> Snapshot() == old(Snapshot()) && nextId == old(nextId)
      ensures r.Some? ==>
        && r.value !in old(users)
        && Snapshot() == old(Snapshot()).AddUser(r.value, User(username, HashOf(password), role))
    {
      if exists k | k in users :: users[k].username == username {
        r := None;
      } else {
        // The row is built first and its credential set afterwards.
        var u := User(username, HashOf(""), role).SetPassword(password);
        var id := nextId;
        users := users[id := u];
        nextId := nextId + 1;
        r := Some(id);
      }
    }

    /** The user with this username, if any. */
    method GetUserByUsername(username: string) returns (r: Option<int>)
      ensures r.None? <==> !Snapshot().UsernameTaken(username)
      ensures r.Some? ==> r.value in users && users[r.value].username == username
    {
      if exists k | k in users :: users[k].username == username {
        var k :| k in users && users[k].username == username;
        r := Some(k);
      } else {
        r := None;
      }
    }

    /** Adds one list owned by `ownerId`. */
    method CreateList(ownerId: int, title: string, description: string := "") returns (id: int)
      requires Valid() && ownerId in users
      modifies this
      ensures Valid()
      ensures id !in old(lists) && nextId == old(nextId) + 1
      ensures Snapshot() == old(Snapshot()).AddList(id, TaskList(title, description, ownerId))
    {
      id := nextId;
      lists := lists[id := TaskList(title, description, ownerId)];
      nextId := nextId + 1;
    }

    /** The share rows that name `userId`. */
    function UserShares(userId: int): set<int>
      reads this
    {
      set k | k in shares && shares[k].userId == userId
    }

    /** The lists a user owns and the lists shared with them. A list the owner
        has shared with themselves appears in both. */
    function GetUserLists(userId: int): (r: UserLists)
      reads this
      ensures forall l :: l in r.owned <==> l in lists && IsOwner(Snapshot(), userId, l)
      ensures forall l :: l in r.shared <==> l in lists && Snapshot().SharedWith(l, userId)
      ensures UserShares(userId) == {} ==> r.shared == {}
    {
      var mine := UserShares(userId);
      var sharedIds := set k | k in mine :: shares[k].listId;
      var owned := set l | l in lists && lists[l].ownerId == userId;
      var shared := if sharedIds == {} then {} else set l | l in lists && l in sharedIds;
      UserLists(owned, shared)
    }

    /** The share row for the pair (listId, userId), if any. */
    method FindShare(listId: int, userId: int) returns (r: Option<int>)
      ensures r.None? <==> !Snapshot().SharedWith(listId, userId)
      ensures r.Some? ==> r.value in shares && shares[r.value].listId == listId && shares[r.value].userId == userId
    {
      if exists k | k in shares :: shares[k].listId == listId && shares[k].userId == userId {
        var k :| k in shares && shares[k].listId == listId && shares[k].userId == userId;
        r := Some(k);
      } else {
        r := None;
      }
    }

    /** Shares a list with a user: updates the pair's row in place if there is
        one, otherwise adds one. */
    method ShareList(listId: int, userId: int, canEdit: bool := false) returns (id: int)
      requires Valid() && listId in lists && userId in users
      modifies this
      ensures Valid()
      ensures Snapshot() == old(Snapshot()).ShareUpsert(listId, userId, canEdit, old(nextId))
      ensures id in shares && shares[id] == ListShare(listId, userId, canEdit)
      ensures old(Snapshot()).SharedWith(listId, userId) ==> id in old(shares) && nextId == old(nextId)
      ensures !old(Snapshot()).SharedWith(listId, userId) ==> id == old(nextId) && nextId == old(nextId) + 1
    {
      UpsertKeepsWellFormed(Snapshot(), listId, userId, canEdit, nextId);
      var existing := FindShare(listId, userId);
      if existing.Some? {
        id := existing.value;
        shares := shares[id := shares[id].(canEdit := canEdit)];
      } else {
        id := nextId;
        shares := shares[id := ListShare(listId, userId, canEdit)];
        nextId := nextId + 1;
      }
    }

    /** Adds one task, not done, to a list. */
    method CreateTask(listId: int, title: string, description: string := "") returns (id: int)
      requires Valid() && listId in lists
      modifies this
      ensures Valid()
      ensures id !in old(tasks) && nextId == old(nextId) + 1
      ensures Snapshot() == old(Snapshot()).AddTask(id, Task(title, description, false, listId))
    {
      id := nextId;
      tasks := tasks[id := NewTask(title, description, listId)];
      nextId := nextId + 1;
    }

    /** Sets a task's done flag; `None` and no change if there is no such task. */
    method ToggleTaskDone(taskId: int, done: bool) returns (r: Option<Task>)
      requires Valid()
      modifies this
      ensures Valid() && nextId == old(nextId)
      ensures r.None? <==> taskId !in old(tasks)
      ensures r.None? ==> Snapshot() == old(Snapshot())
      ensures r.Some? ==> Snapshot() == old(Snapshot()).SetDone(taskId, done) && r.value == tasks[taskId]
    {
      if taskId !in tasks {
        return None;
      }
      tasks := tasks[taskId := tasks[taskId].(done := done)];
      r := Some(tasks[taskId]);
    }

    /** Removes a task; `false` and no change if there is no such task. */
    method DeleteTask(taskId: int) returns (ok: bool)
      requires Valid()
      modifies this
      ensures Valid() && nextId == old(nextId)
      ensures ok <==> taskId in old(tasks)
      ensures !ok ==> Snapshot() == old(Snapshot())
      ensures ok ==> Snapshot() == old(Snapshot()).RemoveTask(taskId)
    {
      if taskId !in tasks {
        return false;
      }
      tasks := tasks - {taskId};
      ok := true;
    }

    /** Removes a list with its tasks and shares; `false` and no change if
        there is no such list. No permission is checked here. */
    method DeleteList(listId: int) returns (ok: bool)
      requires Valid()
      modifies this
      ensures Valid() && nextId == old(nextId)
      ensures ok <==> listId in old(lists)
      ensures !ok ==> Snapshot() == old(Snapshot())
      ensures ok ==> Snapshot() == old(Snapshot()).DeleteList(listId)
    {
      if listId !in lists {
        return false;
      }
      lists := lists - {listId};
      tasks := map k | k in tasks && tasks[k].listId != listId :: tasks[k];
      shares := map k | k in shares && shares[k].listId != listId :: shares[k];
      ok := true;
    }
  }

  /** The lists shown to a user are exactly the lists they may view. */
  lemma ListedIffVisible(s: Store, userId: int, listId: int)
    requires listId in s.lists
    ensures var r := s.GetUserLists(userId);
      listId in r.owned + r.shared <==> Access(s.Snapshot(), userId, listId) != NoAccess
  {
    SharedIffPairRows(s.Snapshot(), listId, userId);
  }

  /** In a valid store the shared lists are exactly the lists the user's share
      rows point at, and each such row gives the user at least view access. */
  lemma {:induction false} UserSharesGiveLists(s: Store, userId: int)
    requires s.Valid()
    ensures s.GetUserLists(userId).shared == set k | k in s.UserShares(userId) :: s.shares[k].listId
    ensures forall k :: k in s.UserShares(userId) ==>
      s.shares[k].listId in s.lists && Access(s.Snapshot(), userId, s.shares[k].listId) != NoAccess
  {
    var t := s.Snapshot();
    var pointed := set k | k in s.UserShares(userId) :: s.shares[k].listId;
    forall l | l in pointed
      ensures l in s.GetUserLists(userId).shared
    {
      var k :| k in s.UserShares(userId) && s.shares[k].listId == l;
      assert t.SharedWith(l, userId);
    }
    forall l | l in s.GetUserLists(userId).shared
      ensures l in pointed
    {
      var k :| k in t.shares && t.shares[k].listId == l && t.shares[k].userId == userId;
      assert k in s.UserShares(userId);
    }
    forall k | k in s.UserShares(userId)
      ensures s.shares[k].listId in s.lists && Access(t, userId, s.shares[k].listId) != NoAccess
    {
      assert t.SharedWith(s.shares[k].listId, userId);
    }
  }

  /** The code does not keep the two sets apart: an owner who shares a list
      with themselves sees it both as owned and as shared. */
  lemma SelfShareListedTwice(s: Store, userId: int, listId: int)
    requires listId in s.lists && s.lists[listId].ownerId == userId
    requires s.Snapshot().SharedWith(listId, userId)
    ensures var r := s.GetUserLists(userId);
      listId in r.owned && listId in r.shared
  {
  }
}
