/** The permission evaluator the request handlers apply inline: a user's
    access to a list is decided by ownership and by the list's share rows. */
module Permissions {
  import opened Models

  datatype Level = NoAccess | View | Edit

  predicate IsOwner(t: Tables, userId: int, listId: int)
    requires listId in t.lists
  {
    t.lists[listId].ownerId == userId
  }

  /** The owner, and any holder of an edit share, may edit; any other holder
      of a share row may view; everybody else has no access. */
  function Access(t: Tables, userId: int, listId: int): (level: Level)
    requires listId in t.lists
    ensures IsOwner(t, userId, listId) ==> level == Edit
    ensures level == NoAccess <==> !IsOwner(t, userId, listId) && t.PairRows(listId, userId) == {}
  {
    SharedIffPairRows(t, listId, userId);
    if IsOwner(t, userId, listId) || t.SharedForEdit(listId, userId) then Edit
    else if t.SharedWith(listId, userId) then View
    else NoAccess
  }

  /** Sharing a list needs ownership itself: an edit share is not enough. */
  function CanShare(t: Tables, userId: int, listId: int): (may: bool)
    requires listId in t.lists
    ensures may ==> Access(t, userId, listId) == Edit
  {
    IsOwner(t, userId, listId)
  }

  /** With one share row per pair, as the upsert keeps, a non-owner's level is
      read off that single row: View exactly when it is a read-only row, and
      Edit or View as the row's flag says. */
  lemma {:induction false} AccessLevels(t: Tables, userId: int, listId: int)
    requires listId in t.lists && t.OneSharePerPair()
    ensures Access(t, userId, listId) == View <==>
      !IsOwner(t, userId, listId) &&
      exists k :: k in t.shares && t.shares[k].listId == listId && t.shares[k].userId == userId && !t.shares[k].canEdit
    ensures forall k :: k in t.PairRows(listId, userId) ==>
      Access(t, userId, listId) == if IsOwner(t, userId, listId) || t.shares[k].canEdit then Edit else View
  {
    forall k | k in t.PairRows(listId, userId)
      ensures Access(t, userId, listId) == if IsOwner(t, userId, listId) || t.shares[k].canEdit then Edit else View
    {
      assert t.SharedWith(listId, userId);
      if t.SharedForEdit(listId, userId) {
        var j :| j in t.shares && t.shares[j].listId == listId && t.shares[j].userId == userId && t.shares[j].canEdit;
        assert j == k;
      }
    }
  }

  /** The owner has edit access whatever share rows exist. */
  lemma OwnerAlwaysEdits(t: Tables, userId: int, listId: int, shares: map<int, ListShare>)
    requires listId in t.lists && IsOwner(t, userId, listId)
    ensures Access(t.(shares := shares), userId, listId) == Edit
  {
  }

  /** A user holding an edit share may edit the list but may not share it. */
  lemma EditShareCannotShare(t: Tables, userId: int, listId: int)
    requires listId in t.lists
    requires !IsOwner(t, userId, listId) && t.SharedForEdit(listId, userId)
    ensures Access(t, userId, listId) == Edit && !CanShare(t, userId, listId)
  {
  }

  /** The role is read by no rule: making a user an admin, or not, changes
      nobody's access to any list. */
  lemma RoleGrantsNothing(t: Tables, userId: int, role: string, someone: int, listId: int)
    requires userId in t.users && listId in t.lists
    ensures var t' := t.(users := t.users[userId := t.users[userId].(role := role)]);
      Access(t', someone, listId) == Access(t, someone, listId)
  {
  }

  /** After sharing a list with a user, that user's access is exactly what the
      share grants, unless they own the list, which always gives edit. */
  lemma {:induction false} UpsertSetsAccess(t: Tables, listId: int, userId: int, canEdit: bool, freshId: int)
    requires listId in t.lists && freshId !in t.shares
    requires t.OneSharePerPair()
    ensures var r := t.ShareUpsert(listId, userId, canEdit, freshId);
      Access(r, userId, listId) ==
        if IsOwner(t, userId, listId) || canEdit then Edit else View
  {
    var r := t.ShareUpsert(listId, userId, canEdit, freshId);
    UpsertLeavesOneRow(t, listId, userId, canEdit, freshId);
    var k :| r.PairRows(listId, userId) == {k} && r.shares[k] == ListShare(listId, userId, canEdit);
    assert k in r.PairRows(listId, userId);
    if canEdit {
      assert r.SharedForEdit(listId, userId);
    } else if !IsOwner(t, userId, listId) {
      forall j | j in r.shares && r.shares[j].listId == listId && r.shares[j].userId == userId
        ensures !r.shares[j].canEdit
      {
        assert j in r.PairRows(listId, userId);
      }
    }
  }

  /** Sharing a list with one user changes no other user's access to any list,
      nor that user's access to other lists. */
  lemma UpsertKeepsOtherAccess(t: Tables, listId: int, userId: int, canEdit: bool, freshId: int,
                               otherUser: int, otherList: int)
    requires listId in t.lists && otherList in t.lists && freshId !in t.shares
    requires otherUser != userId || otherList != listId
    ensures var r := t.ShareUpsert(listId, userId, canEdit, freshId);
      Access(r, otherUser, otherList) == Access(t, otherUser, otherList)
  {
    var r := t.ShareUpsert(listId, userId, canEdit, freshId);
    if t.SharedWith(otherList, otherUser) {
      var k :| k in t.shares && t.shares[k].listId == otherList && t.shares[k].userId == otherUser;
      assert r.shares[k] == t.shares[k];
    }
    if t.SharedForEdit(otherList, otherUser) {
      var k :| k in t.shares && t.shares[k].listId == otherList && t.shares[k].userId == otherUser && t.shares[k].canEdit;
      assert r.shares[k] == t.shares[k];
    }
  }
}
