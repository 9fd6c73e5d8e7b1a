/** The users store: the loaded records, the load error message and the
    loading flag, with the reducers that edit, delete and select records and
    the three outcomes of the load request. */
module UserSlice {
  import opened Js
  import opened UserRecord
  import opened Utils

  /** `i` is the index of the first record carrying `id`. */
  ghost predicate FirstWithId(users: seq<User>, id: UserId, i: int)
  {
    0 <= i < |users| && users[i].id == id && forall j :: 0 <= j < i ==> users[j].id != id
  }

  /** `users.findIndex(user => user.id === id)`. */
  function IndexOfId(users: seq<User>, id: UserId): (r: int)
    ensures -1 <= r < |users|
    ensures r == -1 <==> forall i :: 0 <= i < |users| ==> users[i].id != id
    ensures r != -1 ==> FirstWithId(users, id, r)
  {
    FindIndex((u: User) => u.id == id, users)
  }

  // ---------------------------------------------------------------------------
  // editUserData

  /** The records after editing `id`: the first record with that id gets the
      new name, email and role and keeps its id and checkbox; every other
      record, and the whole list when no record has the id, stays as it was. */
  function EditUser(users: seq<User>, id: UserId, name: string, email: string, role: string)
    : (r: seq<User>)
    ensures |r| == |users|
    ensures forall i :: 0 <= i < |users| ==>
              r[i] == if FirstWithId(users, id, i)
                      then User(id, name, email, role, users[i].isSelected)
                      else users[i]
    ensures (forall i :: 0 <= i < |users| ==> users[i].id != id) ==> r == users
  {
    var userIndex := IndexOfId(users, id);
    if userIndex == -1 then users
    else users[userIndex := users[userIndex].(name := name, email := email, role := role)]
  }

  /** Editing a record with the values it already has leaves the list as it
      was. */
  lemma EditWithSameValues(users: seq<User>, id: UserId, name: string, email: string, role: string)
    requires forall i :: FirstWithId(users, id, i) ==>
               users[i].name == name && users[i].email == email && users[i].role == role
    ensures EditUser(users, id, name, email, role) == users
  {
  }

  /** Two edits of the same id: the second one wins. */
  lemma EditTwiceLastWins(users: seq<User>, id: UserId,
                          name: string, email: string, role: string,
                          name': string, email': string, role': string)
    ensures EditUser(EditUser(users, id, name, email, role), id, name', email', role')
            == EditUser(users, id, name', email', role')
  {
    var once := EditUser(users, id, name, email, role);
    assert forall i :: 0 <= i < |users| ==> once[i].id == users[i].id;
    assert forall i :: FirstWithId(once, id, i) <==> FirstWithId(users, id, i);
  }

  // ---------------------------------------------------------------------------
  // deleteUserData

  /** `users.filter(user => !ids.includes(user.id))`: no record with a listed
      id survives, every other record does, in its original order. The
      membership clause does not by itself keep repeated records; for the
      exact list use `FilterConcat` on the filter this is. */
  function RemoveIds(users: seq<User>, ids: seq<UserId>): (r: seq<User>)
    ensures forall u :: u in r <==> u in users && u.id !in ids
    ensures IsSubsequence(r, users)
  {
    Filter((u: User) => u.id !in ids, users)
  }

  /** Deleting the same ids a second time changes nothing. */
  lemma RemoveIdsIdempotent(users: seq<User>, ids: seq<UserId>)
    ensures RemoveIds(RemoveIds(users, ids), ids) == RemoveIds(users, ids)
  {
    FilterIdempotent((u: User) => u.id !in ids, users);
  }

  /** A delete removes exactly the records whose id is listed: what survives
      and what is dropped add up to the whole list. */
  lemma {:induction false} RemoveIdsCount(users: seq<User>, ids: seq<UserId>)
    ensures |RemoveIds(users, ids)| + |Filter((u: User) => u.id in ids, users)| == |users|
  {
    assert RemoveIds(users, ids) == Filter((u: User) => u.id !in ids, users);
    if users != [] {
      RemoveIdsCount(users[1..], ids);
    }
  }

  /** A deleted id is no longer among the checked ids, whatever was checked
      before. */
  lemma RemovedIdsAreNotChecked(users: seq<User>, ids: seq<UserId>)
    ensures forall id :: id in ids ==> id !in GetCheckedUsers(RemoveIds(users, ids))
  {
  }

  // ---------------------------------------------------------------------------
  // userDataSelect

  /** `users.map(...)` setting the checkbox of every record with `id`: other
      records, and every other field, are left as they were. */
  function SelectById(users: seq<User>, id: UserId, checkedStatus: bool): (r: seq<User>)
    ensures |r| == |users|
    ensures forall i :: 0 <= i < |users| ==>
              r[i].id == users[i].id && r[i].name == users[i].name &&
              r[i].email == users[i].email && r[i].role == users[i].role
    ensures forall i :: 0 <= i < |users| ==>
              r[i].isSelected == if users[i].id == id then checkedStatus else users[i].isSelected
  {
    if users == [] then []
    else
      var head := if users[0].id == id then users[0].(isSelected := checkedStatus) else users[0];
      [head] + SelectById(users[1..], id, checkedStatus)
  }

  /** After ticking or clearing `id`, `id` is checked exactly when it was
      ticked and some record has it, and every other id keeps its state. */
  lemma CheckedAfterSelect(users: seq<User>, id: UserId, checkedStatus: bool)
    ensures var after := GetCheckedUsers(SelectById(users, id, checkedStatus));
            (id in after <==> checkedStatus && exists i :: 0 <= i < |users| && users[i].id == id) &&
            forall other :: other != id ==> (other in after <==> other in GetCheckedUsers(users))
  {
    var r := SelectById(users, id, checkedStatus);
    assert forall u :: u in r <==> exists i :: 0 <= i < |r| && r[i] == u;
    assert forall u :: u in users <==> exists i :: 0 <= i < |users| && users[i] == u;
  }

  // ---------------------------------------------------------------------------
  // The store

  class UserStore {
    var users: seq<User>
    var error: string
    var loading: bool

    /** The initial state: no users, no error, not loading. */
    constructor ()
      ensures users == [] && error == "" && !loading
    {
      users := [];
      error := "";
      loading := false;
    }

    /** editUserData: rewrites the first record with `id` in place. */
    method EditUserData(id: UserId, name: string, email: string, role: string)
      modifies this
      ensures users == EditUser(old(users), id, name, email, role)
      ensures error == old(error) && loading == old(loading)
    {
      var userIndex := IndexOfId(users, id);
      if userIndex != -1 {
        users := users[userIndex := users[userIndex].(name := name, email := email, role := role)];
      }
    }

    /** deleteUserData: keeps the records whose id is not listed. */
    method DeleteUserData(ids: seq<UserId>)
      modifies this
      ensures users == RemoveIds(old(users), ids)
      ensures error == old(error) && loading == old(loading)
    {
      users := RemoveIds(users, ids);
    }

    /** userDataSelect: sets the checkbox of the records with `id`. */
    method UserDataSelect(id: UserId, checkedStatus: bool)
      modifies this
      ensures users == SelectById(old(users), id, checkedStatus)
      ensures error == old(error) && loading == old(loading)
    {
      users := SelectById(users, id, checkedStatus);
    }

    /** fetchUsers.pending: only the loading flag is raised. */
    method FetchPending()
      modifies this
      ensures loading
      ensures users == old(users) && error == old(error)
    {
      loading := true;
    }

    /** fetchUsers.fulfilled: the payload becomes the records, every checkbox
        cleared, and the error is reset. */
    method FetchFulfilled(payload: seq<User>)
      modifies this
      ensures !loading && error == ""
      ensures users == WithSelection(payload, false)
      ensures GetCheckedUsers(users) == []
    {
      loading := false;
      users := WithSelection(payload, false);
      error := "";
      CheckedAfterSelectAll(payload, false);
    }

    /** fetchUsers.rejected: no records and the failure message. */
    method FetchRejected(message: string)
      modifies this
      ensures !loading && users == [] && error == message
    {
      loading := false;
      users := [];
      error := message;
    }
  }
}
