/** The table component's state and the handlers and effect bodies that
    update it: the search projection, the visible page, select-all, edit and
    delete forwarding, the "user not found" rule and the step back from an
    emptied last page. Each effect body is a method; when the framework runs
    them is left to the caller. */
module UserTable {
  import opened Js
  import opened UserRecord
  import opened Utils
  import opened UserSlice
  import opened Pagination

  /** The page size; the table never changes it. */
  const UserPerPage: int := 10

  /** The window size before the first page count is known. */
  const InitialPagesToDisplay: int := 5

  /** The users matching a search text, in their order in the list (stated
      by membership; the order and repeats follow from `FilterConcat`). */
  function Matching(users: seq<User>, searchText: string): (r: seq<User>)
    ensures forall u :: u in r <==> u in users && UserFilter(searchText, u)
    ensures IsSubsequence(r, users)
  {
    Filter((u: User) => UserFilter(searchText, u), users)
  }

  /** A search finds nobody exactly when no user's name, email or role
      contains it. */
  lemma NothingMatchingIff(users: seq<User>, searchText: string)
    ensures Matching(users, searchText) == [] <==>
            forall i :: 0 <= i < |users| ==> !UserFilter(searchText, users[i])
  {
    var r := Matching(users, searchText);
    if r != [] {
      assert r[0] in users;
    }
  }

  /** The empty search text matches everybody, so it would list the whole
      collection; the table instead clears the projection for it. */
  lemma EmptySearchMatchesAll(users: seq<User>)
    ensures Matching(users, "") == users
  {
    FilterKeepsAll((u: User) => UserFilter("", u), users);
  }

  /** Select-all followed by the bulk-delete button deletes exactly the rows of
      the visible page, and nothing else. */
  lemma SelectAllThenBulkDelete(users: seq<User>, visible: seq<User>)
    ensures var ids := GetCheckedUsers(WithSelection(visible, true));
            ids == Ids(visible) &&
            forall i :: 0 <= i < |users| ==>
              (users[i] in RemoveIds(users, ids) <==> users[i].id !in Ids(visible))
  {
    CheckedAfterSelectAll(visible, true);
  }

  /** A row's own checkbox is kept in the store, so a row ticked there is
      still ticked on whichever page shows it later; every other row keeps
      its own state. */
  lemma RowSelectionSurvivesPaging(users: seq<User>, id: UserId, page: int)
    requires page >= 1
    ensures var shown := GetCurrentListOfUsers(SelectById(users, id, true), page, UserPerPage);
            forall k :: 0 <= k < |shown| ==>
              shown[k].isSelected == (shown[k].id == id || users[(page - 1) * UserPerPage + k].isSelected)
  {
  }

  class TableState {
    /** The users store the table reads and dispatches to. */
    const store: UserStore
    /** The pagination bar rendered below the table. */
    const pager: Pager

    var searchText: string
    var currentPage: int
    var pagesToDisplay: int
    /** The last page reported by the pagination bar; None until it reports. */
    var lastPage: Option<int>
    var totalUsers: nat
    var currentListOfUsers: seq<User>
    var filteredUserData: seq<User>
    var selectAll: bool
    var userNotFound: bool

    /** The initial component state. */
    constructor (store: UserStore, pager: Pager)
      ensures this.store == store && this.pager == pager
      ensures searchText == "" && currentPage == 1 && pagesToDisplay == InitialPagesToDisplay
      ensures lastPage == None && totalUsers == 0
      ensures currentListOfUsers == [] && filteredUserData == []
      ensures !selectAll && !userNotFound
    {
      this.store := store;
      this.pager := pager;
      searchText := "";
      currentPage := 1;
      pagesToDisplay := InitialPagesToDisplay;
      lastPage := None;
      totalUsers := 0;
      currentListOfUsers := [];
      filteredUserData := [];
      selectAll := false;
      userNotFound := false;
    }

    // -------------------------------------------------------------------------
    // Handlers

    /** filterUserData: the projection is the matching users for a non-empty
        text and empty otherwise. */
    method FilterUserData(text: string)
      modifies this`filteredUserData
      ensures filteredUserData == if text != "" then Matching(store.users, text) else []
    {
      if text != "" {
        var filterdData := Matching(store.users, text);
        filteredUserData := filterdData;
      } else {
        filteredUserData := [];
      }
    }

    /** updateCurrentListOfUsers: the visible rows become the slice of `data`
        for the current page. */
    method UpdateCurrentListOfUsers(data: seq<User>)
      modifies this`currentListOfUsers
      ensures currentListOfUsers == GetCurrentListOfUsers(data, currentPage, UserPerPage)
    {
      var pageIndex := CalculatePageIndex(currentPage, UserPerPage);
      currentListOfUsers := Slice(data, pageIndex.indexOfFirstUser, pageIndex.indexOfLastUser);
    }

    /** updateUserInfo: while a search projection is shown, its first record
        with `id` is edited in place and the whole projection becomes the
        visible list; the same fields are then sent to the store. */
    method UpdateUserInfo(id: UserId, name: string, email: string, role: string)
      modifies this`filteredUserData, this`currentListOfUsers, store
      ensures filteredUserData == EditUser(old(filteredUserData), id, name, email, role)
      ensures currentListOfUsers ==
                if exists i :: 0 <= i < |old(filteredUserData)| && old(filteredUserData)[i].id == id
                then filteredUserData
                else old(currentListOfUsers)
      ensures store.users == EditUser(old(store.users), id, name, email, role)
      ensures store.error == old(store.error) && store.loading == old(store.loading)
    {
      if |filteredUserData| > 0 {
        var userIndex := IndexOfId(filteredUserData, id);
        if userIndex != -1 {
          filteredUserData := filteredUserData[userIndex :=
            filteredUserData[userIndex].(name := name, email := email, role := role)];
          currentListOfUsers := filteredUserData;
        }
      }
      store.EditUserData(id, name, email, role);
    }

    /** deleteUser: the ids go to the store and the select-all box is
        cleared. */
    method DeleteUser(userIds: seq<UserId>)
      modifies this`selectAll, store
      ensures store.users == RemoveIds(old(store.users), userIds)
      ensures store.error == old(store.error) && store.loading == old(store.loading)
      ensures !selectAll
    {
      store.DeleteUserData(userIds);
      selectAll := false;
    }

    /** The bulk-delete button: deletes the checked rows of the visible page
        only. */
    method DeleteSelected()
      modifies this`selectAll, store
      ensures store.users == RemoveIds(old(store.users), GetCheckedUsers(currentListOfUsers))
      ensures store.error == old(store.error) && store.loading == old(store.loading)
      ensures !selectAll
    {
      var userIds := GetCheckedUsers(currentListOfUsers);
      DeleteUser(userIds);
    }

    /** handleSeleteAll: flips the select-all box and sets the checkbox of
        every visible row, leaving the store alone. */
    method HandleSelectAll(checkedStatus: bool)
      modifies this`selectAll, this`currentListOfUsers
      ensures selectAll == !old(selectAll)
      ensures currentListOfUsers == WithSelection(old(currentListOfUsers), checkedStatus)
    {
      selectAll := !selectAll;
      var newList := WithSelection(currentListOfUsers, checkedStatus);
      currentListOfUsers := newList;
    }

    /** The search box's change handler. */
    method SetSearchText(text: string)
      modifies this`searchText
      ensures searchText == text
    {
      searchText := text;
    }

    /** The pagination bar's setPageChange: a click sets the current page to
        the page its handler asks for. */
    method Navigate(action: Action)
      modifies this`currentPage
      ensures currentPage == NextPage(action, old(currentPage), pager.pageNumbers,
                                      CeilDiv(totalUsers, UserPerPage))
    {
      currentPage := NextPage(action, currentPage, pager.pageNumbers, CeilDiv(totalUsers, UserPerPage));
    }

    // -------------------------------------------------------------------------
    // Effect bodies

    /** On mount: the load request is dispatched (its pending case applies at
        once) and the visible rows are sliced from the records held then. */
    method MountEffect()
      modifies this`currentListOfUsers, store
      ensures store.loading && store.users == old(store.users) && store.error == old(store.error)
      ensures currentListOfUsers == GetCurrentListOfUsers(store.users, currentPage, UserPerPage)
    {
      var users := store.users;
      store.FetchPending();
      UpdateCurrentListOfUsers(users);
    }

    /** On a new search text: recompute the projection. */
    method SearchEffect()
      modifies this`filteredUserData
      ensures filteredUserData == if searchText != "" then Matching(store.users, searchText) else []
    {
      FilterUserData(searchText);
    }

    /** With an empty projection: a non-empty search text means nobody was
        found (flag raised, count zero, no rows); an empty one shows the page
        of the whole collection and sizes the window to its page count. */
    method ViewEffect()
      modifies this`userNotFound, this`totalUsers, this`currentListOfUsers, this`pagesToDisplay
      ensures |filteredUserData| == 0 && searchText != "" ==>
                userNotFound && totalUsers == 0 && currentListOfUsers == [] &&
                pagesToDisplay == old(pagesToDisplay)
      ensures |filteredUserData| == 0 && searchText == "" ==>
                currentListOfUsers == GetCurrentListOfUsers(store.users, currentPage, UserPerPage) &&
                totalUsers == |store.users| &&
                pagesToDisplay == GetTotalPages(store.users, UserPerPage) &&
                userNotFound == old(userNotFound)
      ensures |filteredUserData| != 0 ==>
                userNotFound == old(userNotFound) && totalUsers == old(totalUsers) &&
                currentListOfUsers == old(currentListOfUsers) && pagesToDisplay == old(pagesToDisplay)
    {
      if |filteredUserData| == 0 && searchText != "" {
        userNotFound := true;
        totalUsers := |filteredUserData|;
        currentListOfUsers := [];
      } else if |filteredUserData| == 0 && searchText == "" {
        UpdateCurrentListOfUsers(store.users);
        totalUsers := |store.users|;
        pagesToDisplay := CeilDiv(|store.users|, UserPerPage);
      }
    }

    /** After the records change: a live projection is recomputed, and the
        count is taken from the projection as it was before (the effect reads
        the value of its own render); otherwise the count is the number of
        records. */
    method UsersEffect()
      modifies this`filteredUserData, this`totalUsers
      ensures old(|filteredUserData|) != 0 ==>
                filteredUserData == (if searchText != "" then Matching(store.users, searchText) else []) &&
                totalUsers == old(|filteredUserData|)
      ensures old(|filteredUserData|) == 0 ==>
                filteredUserData == old(filteredUserData) && totalUsers == |store.users|
    {
      if |filteredUserData| != 0 {
        var shown := |filteredUserData|;
        FilterUserData(searchText);
        totalUsers := shown;
      } else {
        totalUsers := |store.users|;
      }
    }

    /** With a non-empty projection: its current page becomes the visible
        list, and the window and the count follow its size. */
    method FilteredEffect()
      modifies this`currentListOfUsers, this`pagesToDisplay, this`totalUsers
      ensures |filteredUserData| > 0 ==>
                currentListOfUsers == GetCurrentListOfUsers(filteredUserData, currentPage, UserPerPage) &&
                pagesToDisplay == GetTotalPages(filteredUserData, UserPerPage) &&
                totalUsers == |filteredUserData|
      ensures |filteredUserData| == 0 ==>
                currentListOfUsers == old(currentListOfUsers) && pagesToDisplay == old(pagesToDisplay) &&
                totalUsers == old(totalUsers)
    {
      if |filteredUserData| > 0 {
        UpdateCurrentListOfUsers(filteredUserData);
        pagesToDisplay := CeilDiv(|filteredUserData|, UserPerPage);
        totalUsers := |filteredUserData|;
      }
    }

    /** When the visible list of the last reported page has become empty, and
        the view is not the "nobody found" one, step back one page. */
    method StepBackEffect()
      modifies this`currentPage
      ensures currentPage ==
                if |currentListOfUsers| == 0 && lastPage == Some(old(currentPage)) &&
                   (|filteredUserData| != 0 || searchText == "")
                then old(currentPage) - 1
                else old(currentPage)
    {
      if |currentListOfUsers| == 0 && lastPage == Some(currentPage) &&
         (|filteredUserData| != 0 || searchText == "") {
        currentPage := lastPage.value - 1;
      }
    }

    /** The pagination bar's effect: it recomputes its window and, when the
        window is not empty, reports its last entry as the last page. */
    method PaginationEffect()
      modifies pager, this`lastPage
      ensures pager.pageNumbers ==
                PageWindow(currentPage, CeilDiv(totalUsers, UserPerPage), pagesToDisplay)
      ensures lastPage == if pager.pageNumbers != [] then Some(Last(pager.pageNumbers)) else old(lastPage)
    {
      var reported := pager.Refresh(currentPage, totalUsers, UserPerPage, pagesToDisplay);
      if reported.Some? {
        lastPage := reported;
      }
    }
  }
}
