/** Runs of the table through its handlers and effect bodies, in the order
    the component's effects fire, checked against the contracts alone:
    deleting the only row of the last page, a search that finds nobody, a
    delete and an edit during a search, and a search typed on a later page. */
module Scenarios {
  import opened Js
  import opened UserRecord
  import opened Utils
  import opened UserSlice
  import opened Pagination
  import opened UserTable

  function Member(id: UserId): User
  {
    User(id, "N" + id, id + "@x", "member", false)
  }

  /** The page arithmetic for ten records followed by one more. */
  lemma ElevenPages(first: seq<User>, last: User)
    requires |first| == 10
    ensures CeilDiv(11, UserPerPage) == 2 && CeilDiv(10, UserPerPage) == 1
    ensures GetCurrentListOfUsers(first + [last], 2, UserPerPage) == [last]
    ensures GetCurrentListOfUsers(first, 2, UserPerPage) == []
    ensures GetCurrentListOfUsers(first, 1, UserPerPage) == first
    ensures PageWindow(1, 2, 2) == [1, 2] && PageWindow(2, 2, 2) == [1, 2]
    ensures PageWindow(1, 1, 1) == [1]
  {
    assert PageWindow(1, 2, 2) == Range(1, 2);
    assert PageWindow(2, 2, 2) == Range(1, 2);
    assert PageWindow(1, 1, 1) == Range(1, 1);
  }

  /** Deleting nothing, and deleting the one extra record by its id. */
  lemma DeleteLast(first: seq<User>, last: User)
    requires forall i :: 0 <= i < |first| ==> first[i].id != last.id
    ensures RemoveIds(first + [last], []) == first + [last]
    ensures RemoveIds(first + [last], [last.id]) == first
  {
    FilterKeepsAll((u: User) => u.id !in [], first + [last]);
    FilterConcat((u: User) => u.id !in [last.id], first, [last]);
    FilterKeepsAll((u: User) => u.id !in [last.id], first);
  }

  /** A table over a freshly loaded collection of unticked records, after
      its first render: page 1 is shown, the window is sized to the page
      count and the bar has reported its last page. */
  method LoadedTable(users: seq<User>) returns (table: TableState)
    requires forall i :: 0 <= i < |users| ==> !users[i].isSelected
    ensures fresh(table) && fresh(table.store) && fresh(table.pager)
    ensures table.store.users == users
    ensures table.currentPage == 1 && table.searchText == "" && table.filteredUserData == []
    ensures !table.userNotFound
    ensures table.currentListOfUsers == GetCurrentListOfUsers(users, 1, UserPerPage)
    ensures table.totalUsers == |users| && table.pagesToDisplay == GetTotalPages(users, UserPerPage)
    ensures table.pager.pageNumbers == PageWindow(1, CeilDiv(|users|, UserPerPage), table.pagesToDisplay)
    ensures table.lastPage == if table.pager.pageNumbers != [] then Some(Last(table.pager.pageNumbers)) else None
  {
    var store := new UserStore();
    var pager := new Pager();
    table := new TableState(store, pager);
    store.FetchFulfilled(users);
    assert store.users == users;
    table.ViewEffect();
    table.PaginationEffect();
  }

  /** Ten records and one more with its own id, ten per page: deleting the
      one record of page 2 empties the last page, and the table steps back to
      page 1, which still shows the first ten records. */
  method DeleteOnlyRowOfLastPage(first: seq<User>, last: User)
    requires |first| == 10 && !last.isSelected
    requires forall i :: 0 <= i < |first| ==> first[i].id != last.id && !first[i].isSelected
  {
    var table := LoadedTable(first + [last]);
    assert table.pager.pageNumbers == [1, 2] && table.lastPage == Some(2) by {
      ElevenPages(first, last);
    }
    table.Navigate(GoTo(2));
    table.ViewEffect();
    assert table.currentListOfUsers == [last] by {
      ElevenPages(first, last);
    }
    DeleteOnPageTwo(table, first, last);
  }

  /** On page 2 of the eleven records: the bulk-delete button with nothing
      ticked deletes nothing, then the row's own delete removes the last
      record, and the table steps back to page 1. */
  method DeleteOnPageTwo(table: TableState, first: seq<User>, last: User)
    requires |first| == 10 && !last.isSelected
    requires forall i :: 0 <= i < |first| ==> first[i].id != last.id
    requires table.store.users == first + [last] && table.currentListOfUsers == [last]
    requires table.currentPage == 2 && table.lastPage == Some(2)
    requires table.filteredUserData == [] && table.searchText == ""
    modifies table, table.store, table.pager
    ensures table.store.users == first && table.currentPage == 1
  {
    assert GetCheckedUsers([last]) == [];
    table.DeleteSelected();
    assert table.store.users == first + [last] by {
      DeleteLast(first, last);
    }
    table.DeleteUser([last.id]);
    assert table.store.users == first by {
      DeleteLast(first, last);
    }
    StepBackFromEmptiedPage(table, first);
  }

  /** The second half of the run above: the records are down to ten while the
      table still stands on page 2, which it last reported as its last page.
      The view empties, the table steps back, page 1 shows the ten records and
      the bar reports page 1 as the last page. */
  method StepBackFromEmptiedPage(table: TableState, first: seq<User>)
    requires |first| == 10 && table.store.users == first
    requires table.currentPage == 2 && table.lastPage == Some(2)
    requires table.filteredUserData == [] && table.searchText == ""
    modifies table, table.pager
    ensures table.currentPage == 1 && table.currentListOfUsers == first
    ensures table.pager.pageNumbers == [1] && table.lastPage == Some(1)
  {
    table.ViewEffect();
    assert table.currentListOfUsers == [] by {
      ElevenPages(first, Member("x"));
    }
    table.UsersEffect();
    table.StepBackEffect();
    table.ViewEffect();
    assert table.currentListOfUsers == first by {
      ElevenPages(first, Member("x"));
    }
    table.PaginationEffect();
    assert table.pager.pageNumbers == [1] by {
      ElevenPages(first, Member("x"));
    }
  }

  /** A needle starting with a character the text never contains does not
      occur in it. */
  lemma AbsentChar(hay: string, needle: string)
    requires needle != [] && forall j :: 0 <= j < |hay| ==> hay[j] != needle[0]
    ensures !IsSubstring(needle, hay)
  {
    forall i | 0 <= i && i + |needle| <= |hay|
      ensures !OccursAt(hay, needle, i)
    {
      assert hay[i..i + |needle|][0] == hay[i];
    }
  }

  /** No field of a sample record contains a z, in either case. */
  lemma NoZ(u: User)
    requires u in [Member("a"), Member("b"), Member("c")]
    ensures !UserFilter("zzz", u)
  {
    assert ToLower("zzz") == "zzz";
    var fields := [u.name, u.email, u.role];
    forall f | f in fields
      ensures !IsSubstring("zzz", ToLower(f))
    {
      assert forall j :: 0 <= j < |f| ==> f[j] != 'z' && f[j] != 'Z';
      AbsentChar(ToLower(f), "zzz");
    }
    assert u.name in fields && u.email in fields && u.role in fields;
  }

  /** None of the three sample records matches "zzz". */
  lemma NobodyIsZzz()
    ensures Matching([Member("a"), Member("b"), Member("c")], "zzz") == []
  {
    var three := [Member("a"), Member("b"), Member("c")];
    forall i | 0 <= i < |three|
      ensures !UserFilter("zzz", three[i])
    {
      NoZ(three[i]);
    }
    NothingMatchingIff(three, "zzz");
  }

  /** A search text that matches none of the records raises the not-found
      flag, zeroes the count and empties the view, on whatever page. */
  method SearchForNobody(table: TableState, key: string)
    requires key != "" && Matching(table.store.users, key) == []
    modifies table
    ensures table.userNotFound && table.totalUsers == 0 && table.currentListOfUsers == []
    ensures table.currentPage == old(table.currentPage) && table.searchText == key
  {
    table.SetSearchText(key);
    table.SearchEffect();
    table.ViewEffect();
  }

  /** Three records and a search for "zzz", which none of them contains,
      followed by clearing the search box. */
  method SearchFindsNobody()
  {
    var three := [Member("a"), Member("b"), Member("c")];
    var table := LoadedTable(three);
    assert Matching(three, "zzz") == [] by {
      NobodyIsZzz();
    }
    SearchForNobody(table, "zzz");
    ClearSearchAfterNobody(table, three);
  }

  /** Clearing the search text after a search that found nobody brings back
      the first page of the whole collection and its count, while the
      not-found flag stays raised: nothing in the table lowers it. */
  method ClearSearchAfterNobody(table: TableState, users: seq<User>)
    requires table.userNotFound && table.currentPage == 1 && table.store.users == users
    requires |users| <= UserPerPage
    modifies table
    ensures table.currentListOfUsers == users && table.totalUsers == |users|
    ensures table.userNotFound
  {
    table.SetSearchText("");
    table.SearchEffect();
    table.ViewEffect();
    assert table.currentListOfUsers == users by {
      assert GetCurrentListOfUsers(users, 1, UserPerPage) == users;
    }
  }

  /** A delete while a search is live: for one pass the count is the size of
      the projection before the delete, and the next pass of the
      projection's own effect sets the count and the rows from the new
      projection. */
  method DeleteDuringSearchSettles(table: TableState, userIds: seq<UserId>)
    requires table.searchText != "" && table.filteredUserData != []
    modifies table, table.store
    ensures table.filteredUserData == Matching(table.store.users, table.searchText)
    ensures table.filteredUserData != [] ==>
              table.totalUsers == |table.filteredUserData| &&
              table.currentListOfUsers ==
                GetCurrentListOfUsers(table.filteredUserData, table.currentPage, UserPerPage)
  {
    var shownBefore := |table.filteredUserData|;
    table.DeleteUser(userIds);
    table.UsersEffect();
    assert table.totalUsers == shownBefore;
    table.FilteredEffect();
  }

  /** An edit while a search is live: for one pass the visible list is the
      whole edited projection, and the next passes re-filter it and show its
      current page again. */
  method EditDuringSearchSettles(table: TableState, id: UserId, name: string, email: string, role: string)
    requires table.searchText != "" && table.filteredUserData != []
    modifies table, table.store
    ensures table.filteredUserData == Matching(table.store.users, table.searchText)
    ensures table.filteredUserData != [] ==>
              table.totalUsers == |table.filteredUserData| &&
              table.currentListOfUsers ==
                GetCurrentListOfUsers(table.filteredUserData, table.currentPage, UserPerPage)
  {
    table.UpdateUserInfo(id, name, email, role);
    table.UsersEffect();
    table.FilteredEffect();
  }

  /** The page arithmetic for five matches seen from page 5. */
  lemma FiveMatchesFromPageFive(matches: seq<User>)
    requires |matches| == 5
    ensures GetCurrentListOfUsers(matches, 5, UserPerPage) == []
    ensures GetCurrentListOfUsers(matches, 4, UserPerPage) == []
    ensures CeilDiv(5, UserPerPage) == 1
    ensures PageWindow(4, 1, 1) == [1]
  {
    assert PageWindow(4, 1, 1) == Range(1, 1);
  }

  /** A search typed on page 5 that matches five records: page 5 of the
      matches is empty, the table steps back once to page 4 (the last page
      its render knew), the bar then reports page 1, and the table stays on
      page 4 with no rows although matches exist. The left arrow there asks
      for page 3, outside the window `[1]`. */
  method SearchFromLaterPage(table: TableState, key: string)
    requires table.currentPage == 5 && table.lastPage == Some(5)
    requires key != "" && |Matching(table.store.users, key)| == 5
    modifies table, table.pager
    ensures table.currentPage == 4 && table.currentListOfUsers == []
    ensures |table.filteredUserData| == 5
    ensures table.pager.pageNumbers == [1] && table.lastPage == Some(1)
    ensures PrevAndNext(Left, table.currentPage, table.pager.pageNumbers) == Some(3)
  {
    table.SetSearchText(key);
    table.SearchEffect();
    table.FilteredEffect();
    assert table.currentListOfUsers == [] && table.totalUsers == 5 && table.pagesToDisplay == 1 by {
      FiveMatchesFromPageFive(table.filteredUserData);
    }
    table.StepBackEffect();
    assert table.currentPage == 4;
    table.PaginationEffect();
    assert table.pager.pageNumbers == [1] by {
      FiveMatchesFromPageFive(table.filteredUserData);
    }
    table.FilteredEffect();
    assert table.currentListOfUsers == [] by {
      FiveMatchesFromPageFive(table.filteredUserData);
    }
    table.StepBackEffect();
  }
}
