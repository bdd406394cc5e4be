/** The data model of the task-list app: users, task lists, tasks and list
    shares as id-keyed records, the structural invariants the schema and the
    service layer keep, and the pure state transitions the services perform. */
module Models {

  datatype Option<T> = None | Some(value: T)

  /** Role given to every user created without an explicit one. */
  const DefaultRole: string := "user"
  const AdminRole: string := "admin"

  /** The stored credential stands for the salted hash of a password. Hashing
      itself is outside the model: the value only records which password it
      was made from, so that checking a password is comparing the two. */
  datatype Credential = HashOf(password: string)

  datatype User = User(username: string, credential: Credential, role: string)
  {
    /** Every user the app registers gets the default role, so is no admin. */
    function IsAdmin(): (admin: bool)
      ensures role == DefaultRole ==> !admin
    {
      role == AdminRole
    }

    /** Replaces the stored credential with one made from `password`. */
    function SetPassword(password: string): (u: User)
      ensures u.CheckPassword(password)
      ensures u.username == username && u.role == role
    {
      this.(credential := HashOf(password))
    }

    /** A password checks exactly when the stored credential was made from it. */
    function CheckPassword(password: string): (ok: bool)
      ensures ok <==> credential == HashOf(password)
    {
      credential.password == password
    }
  }

  datatype TaskList = TaskList(title: string, description: string, ownerId: int)

  datatype Task = Task(title: string, description: string, done: bool, listId: int)

  datatype ListShare = ListShare(listId: int, userId: int, canEdit: bool)

  /** A new task is not done. */
  function NewTask(title: string, description: string, listId: int): Task
  {
    Task(title, description, false, listId)
  }

  /** The four tables of the store, each keyed by primary-key id. */
  datatype Tables = Tables(
    users: map<int, User>,
    lists: map<int, TaskList>,
    tasks: map<int, Task>,
    shares: map<int, ListShare>)
  {
    /** No two users have the same username. */
    ghost predicate UniqueUsernames()
    {
      forall a, b :: a in users && b in users && users[a].username == users[b].username ==> a == b
    }

    /** Every list's owner is a stored user. */
    ghost predicate ListsOwned()
    {
      forall l :: l in lists ==> lists[l].ownerId in users
    }

    /** Every task belongs to a stored list. */
    ghost predicate TasksAttached()
    {
      forall k :: k in tasks ==> tasks[k].listId in lists
    }

    /** Every share names a stored list and a stored user. */
    ghost predicate SharesAttached()
    {
      forall k :: k in shares ==> shares[k].listId in lists && shares[k].userId in users
    }

    /** At most one share row per (list, user) pair. The schema does not
        enforce this; only the upsert in the share service keeps it. */
    ghost predicate OneSharePerPair()
    {
      forall a, b ::
        (a in shares && b in shares &&
         shares[a].listId == shares[b].listId && shares[a].userId == shares[b].userId) ==> a == b
    }

    /** No child row outlives its parent. */
    ghost predicate NoOrphans()
    {
      ListsOwned() && TasksAttached() && SharesAttached()
    }

    ghost predicate WellFormed()
    {
      UniqueUsernames() && NoOrphans() && OneSharePerPair()
    }

    /** Every id in use is below `n`, so `n` is free in every table. */
    ghost predicate IdsBelow(n: int)
    {
      && (forall k :: k in users ==> k < n)
      && (forall k :: k in lists ==> k < n)
      && (forall k :: k in tasks ==> k < n)
      && (forall k :: k in shares ==> k < n)
    }

    predicate UsernameTaken(name: string)
    {
      exists k :: k in users && users[k].username == name
    }

    /** `userId` holds a share row on `listId`, whatever its edit flag. */
    predicate SharedWith(listId: int, userId: int)
    {
      exists k :: k in shares && shares[k].listId == listId && shares[k].userId == userId
    }

    /** `userId` holds a share row on `listId` that grants editing. */
    predicate SharedForEdit(listId: int, userId: int)
    {
      exists k :: k in shares && shares[k].listId == listId && shares[k].userId == userId && shares[k].canEdit
    }

    /** The ids of the share rows for the pair (listId, userId). */
    function PairRows(listId: int, userId: int): set<int>
    {
      set k | k in shares && shares[k].listId == listId && shares[k].userId == userId
    }

    function AddUser(id: int, u: User): (r: Tables)
      requires id !in users
      ensures r.UsernameTaken(u.username)
      ensures r.users.Keys == users.Keys + {id} && r.users[id] == u
      ensures forall k :: k in users ==> r.users[k] == users[k]
      ensures r.lists == lists && r.tasks == tasks && r.shares == shares
      ensures WellFormed() && !UsernameTaken(u.username) ==> r.WellFormed()
    {
      var r := this.(users := users[id := u]);
      assert r.users[id].username == u.username;
      r
    }

    function AddList(id: int, l: TaskList): (r: Tables)
      requires id !in lists
      ensures r.lists.Keys == lists.Keys + {id} && r.lists[id] == l
      ensures forall k :: k in lists ==> r.lists[k] == lists[k]
      ensures r.users == users && r.tasks == tasks && r.shares == shares
      ensures WellFormed() && l.ownerId in users ==> r.WellFormed()
    {
      this.(lists := lists[id := l])
    }

    function AddTask(id: int, t: Task): (r: Tables)
      requires id !in tasks
      ensures r.tasks.Keys == tasks.Keys + {id} && r.tasks[id] == t
      ensures forall k :: k in tasks ==> r.tasks[k] == tasks[k]
      ensures r.users == users && r.lists == lists && r.shares == shares
      ensures WellFormed() && t.listId in lists ==> r.WellFormed()
    {
      this.(tasks := tasks[id := t])
    }

    /** The share upsert: if a row for (listId, userId) exists, only its edit
        flag changes; otherwise one row is added under `freshId`. */
    ghost function ShareUpsert(listId: int, userId: int, canEdit: bool, freshId: int): (r: Tables)
      requires freshId !in shares
      ensures r.users == users && r.lists == lists && r.tasks == tasks
      ensures SharedWith(listId, userId) ==> r.shares.Keys == shares.Keys
      ensures !SharedWith(listId, userId) ==>
        r.shares.Keys == shares.Keys + {freshId} && r.shares[freshId] == ListShare(listId, userId, canEdit)
      ensures OneSharePerPair() ==> forall k :: k in r.shares && r.shares[k].listId == listId && r.shares[k].userId == userId ==>
        r.shares[k].canEdit == canEdit
      ensures forall k :: k in shares && (shares[k].listId != listId || shares[k].userId != userId) ==>
        k in r.shares && r.shares[k] == shares[k]
      ensures r.SharedWith(listId, userId)
    {
      if SharedWith(listId, userId) then
        var k :| k in shares && shares[k].listId == listId && shares[k].userId == userId;
        this.(shares := shares[k := shares[k].(canEdit := canEdit)])
      else
        this.(shares := shares[freshId := ListShare(listId, userId, canEdit)])
    }

    function SetDone(taskId: int, done: bool): (r: Tables)
      requires taskId in tasks
      ensures r.users == users && r.lists == lists && r.shares == shares
      ensures r.tasks.Keys == tasks.Keys
      ensures r.tasks[taskId] == tasks[taskId].(done := done)
      ensures forall k :: k in tasks && k != taskId ==> r.tasks[k] == tasks[k]
      ensures WellFormed() ==> r.WellFormed()
    {
      this.(tasks := tasks[taskId := tasks[taskId].(done := done)])
    }

    function RemoveTask(taskId: int): (r: Tables)
      ensures r.users == users && r.lists == lists && r.shares == shares
      ensures r.tasks.Keys == tasks.Keys - {taskId}
      ensures forall k :: k in r.tasks ==> k in tasks && r.tasks[k] == tasks[k]
      ensures WellFormed() ==> r.WellFormed()
    {
      this.(tasks := tasks - {taskId})
    }

    /** Deleting a list cascades to its tasks and its shares. */
    function DeleteList(listId: int): (r: Tables)
      ensures r.users == users
      ensures r.lists.Keys == lists.Keys - {listId}
      ensures forall k :: k in r.lists ==> r.lists[k] == lists[k]
      ensures forall k :: k in r.tasks ==> k in tasks && r.tasks[k] == tasks[k] && r.tasks[k].listId != listId
      ensures forall k :: k in r.shares ==> k in shares && r.shares[k] == shares[k] && r.shares[k].listId != listId
      ensures forall k :: k in tasks && tasks[k].listId != listId ==> k in r.tasks
      ensures forall k :: k in shares && shares[k].listId != listId ==> k in r.shares
      ensures WellFormed() ==> r.WellFormed()
    {
      Tables(
        users,
        lists - {listId},
        map k | k in tasks && tasks[k].listId != listId :: tasks[k],
        map k | k in shares && shares[k].listId != listId :: shares[k])
    }

    /** The lists owned by `userId`. */
    function OwnedBy(userId: int): set<int>
    {
      set l | l in lists && lists[l].ownerId == userId
    }

    /** Deleting a user as the schema's cascades alone would: the user, the
        lists they own, and those lists' tasks and shares. Shares that name
        the user on somebody else's list have no cascade and stay. */
    function DeleteUserAsMapped(userId: int): (r: Tables)
      ensures r.users.Keys == users.Keys - {userId}
      ensures forall u :: u in r.users ==> r.users[u] == users[u]
      ensures r.lists.Keys == lists.Keys - OwnedBy(userId)
      ensures forall l :: l in r.lists ==> r.lists[l] == lists[l]
      ensures forall k :: k in r.tasks <==> k in tasks && tasks[k].listId !in OwnedBy(userId)
      ensures forall k :: k in r.tasks ==> r.tasks[k] == tasks[k]
      ensures forall k :: k in r.shares <==> k in shares && shares[k].listId !in OwnedBy(userId)
      ensures forall k :: k in r.shares ==> r.shares[k] == shares[k]
      ensures WellFormed() ==>
        r.UniqueUsernames() && r.ListsOwned() && r.TasksAttached() && r.OneSharePerPair()
    {
      var gone := OwnedBy(userId);
      Tables(
        users - {userId},
        lists - gone,
        map k | k in tasks && tasks[k].listId !in gone :: tasks[k],
        map k | k in shares && shares[k].listId !in gone :: shares[k])
    }

    /** Deleting a user so that no share outlives either its list or its
        user: as `DeleteUserAsMapped`, and also every share naming the user. */
    function DeleteUser(userId: int): (r: Tables)
      ensures r.users.Keys == users.Keys - {userId}
      ensures forall u :: u in r.users ==> r.users[u] == users[u]
      ensures r.lists.Keys == lists.Keys - OwnedBy(userId)
      ensures forall l :: l in r.lists ==> r.lists[l] == lists[l] && r.lists[l].ownerId != userId
      ensures forall k :: k in r.tasks <==> k in tasks && tasks[k].listId !in OwnedBy(userId)
      ensures forall k :: k in r.tasks ==> r.tasks[k] == tasks[k]
      ensures forall k :: k in r.shares <==>
        k in shares && shares[k].listId !in OwnedBy(userId) && shares[k].userId != userId
      ensures forall k :: k in r.shares ==> r.shares[k] == shares[k]
      ensures WellFormed() ==> r.WellFormed()
    {
      var gone := OwnedBy(userId);
      Tables(
        users - {userId},
        lists - gone,
        map k | k in tasks && tasks[k].listId !in gone :: tasks[k],
        map k | k in shares && shares[k].listId !in gone && shares[k].userId != userId :: shares[k])
    }
  }

  /** A pair is shared exactly when it has a share row. */
  lemma SharedIffPairRows(t: Tables, listId: int, userId: int)
    ensures t.SharedWith(listId, userId) <==> t.PairRows(listId, userId) != {}
  {
    if t.SharedWith(listId, userId) {
      var k :| k in t.shares && t.shares[k].listId == listId && t.shares[k].userId == userId;
      assert k in t.PairRows(listId, userId);
    }
    if !t.SharedWith(listId, userId) {
      forall k | k in t.PairRows(listId, userId)
        ensures t.SharedWith(listId, userId)
      {
        assert k in t.shares && t.shares[k].listId == listId && t.shares[k].userId == userId;
      }
      assert t.PairRows(listId, userId) == {};
    }
  }

  /** The upsert never adds a second row for a pair. */
  lemma UpsertKeepsOneSharePerPair(t: Tables, listId: int, userId: int, canEdit: bool, freshId: int)
    requires freshId !in t.shares
    requires t.OneSharePerPair()
    ensures t.ShareUpsert(listId, userId, canEdit, freshId).OneSharePerPair()
  {
  }

  /** Sharing an existing list with an existing user keeps every invariant. */
  lemma UpsertKeepsWellFormed(t: Tables, listId: int, userId: int, canEdit: bool, freshId: int)
    requires freshId !in t.shares
    requires t.WellFormed() && listId in t.lists && userId in t.users
    ensures t.ShareUpsert(listId, userId, canEdit, freshId).WellFormed()
  {
    UpsertKeepsOneSharePerPair(t, listId, userId, canEdit, freshId);
  }

  /** When the pair had at most one row, the upsert leaves exactly one row for
      it, carrying the edit flag just given. */
  lemma {:induction false} UpsertLeavesOneRow(t: Tables, listId: int, userId: int, canEdit: bool, freshId: int)
    requires freshId !in t.shares
    requires t.OneSharePerPair()
    ensures var r := t.ShareUpsert(listId, userId, canEdit, freshId);
      exists k :: r.PairRows(listId, userId) == {k} && r.shares[k] == ListShare(listId, userId, canEdit)
  {
    var r := t.ShareUpsert(listId, userId, canEdit, freshId);
    var k :| k in r.shares && r.shares[k].listId == listId && r.shares[k].userId == userId;
    UpsertKeepsOneSharePerPair(t, listId, userId, canEdit, freshId);
    forall j | j in r.PairRows(listId, userId)
      ensures j == k
    {
      assert r.shares[j].listId == r.shares[k].listId && r.shares[j].userId == r.shares[k].userId;
    }
    assert r.PairRows(listId, userId) == {k};
  }

  /** Re-sharing the same pair twice leaves one row holding the latest flag,
      and the second call adds no row. */
  lemma UpsertTwice(t: Tables, listId: int, userId: int, first: bool, second: bool, id1: int, id2: int)
    requires id1 !in t.shares
    requires id2 !in t.ShareUpsert(listId, userId, first, id1).shares
    requires t.OneSharePerPair()
    ensures var once := t.ShareUpsert(listId, userId, first, id1);
      var twice := once.ShareUpsert(listId, userId, second, id2);
      && twice.shares.Keys == once.shares.Keys
      && exists k :: twice.PairRows(listId, userId) == {k} && twice.shares[k] == ListShare(listId, userId, second)
  {
    var once := t.ShareUpsert(listId, userId, first, id1);
    UpsertLeavesOneRow(once, listId, userId, second, id2);
  }

  /** Setting the same done value twice is the same as setting it once. */
  lemma SetDoneIdempotent(t: Tables, taskId: int, done: bool)
    requires taskId in t.tasks
    ensures t.SetDone(taskId, done).SetDone(taskId, done) == t.SetDone(taskId, done)
  {
  }

  /** Setting a password and checking one round-trip: after `SetPassword(p)`
      exactly `p` checks. */
  lemma PasswordRoundTrip(u: User, p: string, q: string)
    ensures u.SetPassword(p).CheckPassword(q) <==> q == p
  {
  }

  /** With only the schema's cascades, deleting a user who holds a share on
      another user's list leaves that share naming a missing user. */
  lemma DeleteUserAsMappedLeavesDanglingShare()
    ensures var t := Tables(
        map[1 := User("alice", HashOf("pw1"), DefaultRole), 2 := User("bob", HashOf("pw2"), DefaultRole)],
        map[10 := TaskList("Groceries", "", 1)],
        map[],
        map[20 := ListShare(10, 2, false)]);
      t.WellFormed() && !t.DeleteUserAsMapped(2).SharesAttached()
  {
    var t := Tables(
        map[1 := User("alice", HashOf("pw1"), DefaultRole), 2 := User("bob", HashOf("pw2"), DefaultRole)],
        map[10 := TaskList("Groceries", "", 1)],
        map[],
        map[20 := ListShare(10, 2, false)]);
    var r := t.DeleteUserAsMapped(2);
    assert t.OwnedBy(2) == {};
    assert 20 in r.shares;
  }
}
