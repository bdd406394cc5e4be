/** Client scenarios: what a caller can conclude from the contracts alone. */
module Scenarios {
  import opened Models
  import opened Permissions
  import opened Services
  import opened Text
  import opened Routes

  /** Sharing without saying whether editing is allowed grants view only. */
  method ShareByDefault(s: Store, listId: int, userId: int) returns (id: int)
    requires s.Valid() && listId in s.lists && userId in s.users
    requires !s.Snapshot().SharedWith(listId, userId)
    modifies s
    ensures s.Valid() && id in s.shares && !s.shares[id].canEdit
    ensures listId in s.lists && (!IsOwner(s.Snapshot(), userId, listId) ==> Access(s.Snapshot(), userId, listId) == View)
  {
    ghost var before, freshId := s.Snapshot(), s.nextId;
    id := s.ShareList(listId, userId);
    UpsertSetsAccess(before, listId, userId, false, freshId);
  }

  /** A new user, a list they own and a task in it, through the services. */
  method CreateUserAndList() returns (s: Store, u: Option<int>, l: int, t: int)
    ensures s.Valid()
    ensures u.Some? && u.value in s.users && s.users[u.value].username == "alice"
    ensures s.users[u.value].role == DefaultRole
    ensures l in s.lists && s.lists[l].title == "Groceries" && s.lists[l].ownerId == u.value
    ensures t in s.tasks && s.tasks[t].title == "Buy milk" && !s.tasks[t].done && s.tasks[t].listId == l
  {
    s := new Store();
    u := s.CreateUser("alice", "password1");
    assert !Tables(map[], map[], map[], map[]).UsernameTaken("alice");
    l := s.CreateList(u.value, "Groceries", "Buy milk");
    t := s.CreateTask(l, "Buy milk", "2 liters");
  }

  /** Two users, alice and bob, and alice's list "Groceries"
      holding one task "Milk" that is not done; nothing is shared yet. */
  method SetUpGroceries() returns (s: Store, alice: int, bob: int, listId: int, taskId: int)
    ensures fresh(s) && s.Valid()
    ensures alice != bob && alice in s.users && bob in s.users
    ensures s.users[alice].username == "alice" && s.users[bob].username == "bob"
    ensures listId in s.lists && s.lists[listId].ownerId == alice
    ensures taskId in s.tasks && s.tasks[taskId].listId == listId && !s.tasks[taskId].done
    ensures s.shares == map[]
  {
    s := new Store();
    var a := s.CreateUser("alice", "pw1");
    assert !Tables(map[], map[], map[], map[]).UsernameTaken("alice");
    alice := a.value;
    assert !s.Snapshot().UsernameTaken("bob") by {
      assert s.users.Keys == {alice} && s.users[alice].username == "alice";
    }
    var b := s.CreateUser("bob", "pw2");
    bob := b.value;
    listId := s.CreateList(alice, "Groceries");
    taskId := s.CreateTask(listId, "Milk");
  }

  /** Shares a list owned by `owner` with the user named "bob"; afterwards
      bob's access is what the checkbox granted. */
  method ShareWithBob(s: Store, owner: int, bob: int, listId: int, ticked: Option<string>)
    requires s.Valid() && bob in s.users && s.users[bob].username == "bob"
    requires listId in s.lists && s.lists[listId].ownerId == owner && owner != bob
    modifies s
    ensures s.Valid() && s.lists == old(s.lists) && s.tasks == old(s.tasks) && s.users == old(s.users)
    ensures Access(s.Snapshot(), bob, listId) == if CheckboxTicked(ticked) then Edit else View
  {
    ghost var before, freshId := s.Snapshot(), s.nextId;
    StripKeepsTrimmed("bob");
    assert before.UsernameTaken("bob");
    var r := ShareListView(s, owner, listId, "bob", ticked);
    assert r.Ok?;
    ghost var target :| target in before.users && before.users[target].username == "bob" &&
      s.Snapshot() == before.ShareUpsert(listId, target, CheckboxTicked(ticked), freshId);
    assert target == bob;
    UpsertSetsAccess(before, listId, bob, CheckboxTicked(ticked), freshId);
  }

  /** A read-only share does not let bob toggle alice's task; upgrading the
      same share does; then alice deletes the list and nothing that
      referenced it remains. */
  method ShareThenEdit() returns (denied: Response<bool>, toggled: Response<bool>, gone: bool)
    ensures denied == Forbidden && toggled == Ok(true) && gone
  {
    var s, alice, bob, listId, taskId := SetUpGroceries();

    ShareWithBob(s, alice, bob, listId, None);
    denied := ApiToggleTask(s, bob, taskId, Some(true));
    assert !s.tasks[taskId].done;

    ShareWithBob(s, alice, bob, listId, Some("on"));
    toggled := ApiToggleTask(s, bob, taskId, None);
    assert s.tasks[taskId].done;

    gone := s.DeleteList(listId);
    assert taskId !in s.tasks;
    assert forall k :: k in s.shares ==> s.shares[k].listId != listId;
  }

  /** A fresh store in which "alice" has registered. */
  method RegisterAlice() returns (s: Store, alice: int)
    ensures fresh(s) && s.Valid()
    ensures s.users == map[alice := User("alice", HashOf("pw1"), DefaultRole)]
  {
    s := new Store();
    StripKeepsTrimmed("alice");
    var r := Register(s, "alice", "pw1");
    assert !Tables(map[], map[], map[], map[]).UsernameTaken("alice");
    alice := r.value;
  }

  /** Registering a taken name again is a conflict, and one user still holds
      the name. */
  method RegisterTwice() returns (s: Store, alice: int, second: Response<int>)
    ensures second == Conflict
    ensures s.users.Keys == {alice} && s.users[alice].username == "alice"
  {
    s, alice := RegisterAlice();
    StripKeepsTrimmed("alice");
    assert s.Snapshot().UsernameTaken("alice") by {
      assert s.users[alice].username == "alice";
    }
    second := Register(s, "alice", "pw2");
  }
}
