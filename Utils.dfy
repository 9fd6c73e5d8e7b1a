/** The helper functions of the table: the search predicate, the window of
    page numbers, page index arithmetic and slicing, the page count and the
    ids of the checked rows. */
module Utils {
  import opened Js
  import opened UserRecord

  // ---------------------------------------------------------------------------
  // userFilter

  /** A user matches a search key when the lower-cased key occurs in the
      lower-cased name, email or role. */
  function UserFilter(searchKey: string, user: User): (r: bool)
    ensures r <==> (IsSubstring(ToLower(searchKey), ToLower(user.name))
                    || IsSubstring(ToLower(searchKey), ToLower(user.email))
                    || IsSubstring(ToLower(searchKey), ToLower(user.role)))
    ensures searchKey == "" ==> r
  {
    var key := ToLower(searchKey);
    IncludesIsSubstring(ToLower(user.name), key);
    IncludesIsSubstring(ToLower(user.email), key);
    IncludesIsSubstring(ToLower(user.role), key);
    Includes(ToLower(user.name), key)
    || Includes(ToLower(user.email), key)
    || Includes(ToLower(user.role), key)
  }

  /** The match does not depend on the case of the key. */
  lemma UserFilterIgnoresKeyCase(searchKey: string, user: User)
    ensures UserFilter(ToLower(searchKey), user) == UserFilter(searchKey, user)
  {
    ToLowerIdempotent(searchKey);
  }

  // ---------------------------------------------------------------------------
  // getPageNumbers

  /** The inclusive run `lo, lo + 1, ..., hi` (empty when `hi < lo`). */
  function Range(lo: int, hi: int): (r: seq<int>)
    ensures |r| == Max0(hi - lo + 1)
    ensures forall k :: 0 <= k < |r| ==> r[k] == lo + k
    decreases hi - lo
  {
    if hi < lo then [] else [lo] + Range(lo + 1, hi)
  }

  /** `(startPage, endPage)` as chosen when there is at least one page: the
      whole range when the page count equals the window size, otherwise a
      window starting `mid` pages before the current one, whose end is not
      limited to the page count when there are more pages than the window. */
  function WindowBounds(currentPage: int, totalPages: int, pagesToDisplay: int): (int, int)
  {
    var mid := pagesToDisplay / 2;
    if totalPages == pagesToDisplay then (1, totalPages)
    else
      var startPage := if currentPage <= mid then 1 else currentPage - mid;
      var endPage := if totalPages <= pagesToDisplay then totalPages
                     else startPage + pagesToDisplay - 1;
      (startPage, endPage)
  }

  /** The page numbers offered for direct navigation. */
  function PageWindow(currentPage: int, totalPages: int, pagesToDisplay: int): (r: seq<int>)
    ensures totalPages == 0 ==> r == []
    ensures totalPages == pagesToDisplay ==> r == Range(1, totalPages)
    ensures forall k :: 0 <= k < |r| ==> r[k] == r[0] + k
    ensures currentPage >= 1 && r != [] ==> r[0] >= 1
    ensures r != [] && totalPages != pagesToDisplay ==>
              r[0] == (if currentPage <= pagesToDisplay / 2 then 1 else currentPage - pagesToDisplay / 2)
    ensures totalPages != 0 && totalPages > pagesToDisplay >= 0 ==> |r| == pagesToDisplay
    ensures totalPages != pagesToDisplay && 0 <= totalPages <= pagesToDisplay && r != [] ==>
              r[|r| - 1] == totalPages
    ensures 0 < totalPages < pagesToDisplay ==>
              r == Range(if currentPage <= pagesToDisplay / 2 then 1 else currentPage - pagesToDisplay / 2,
                         totalPages)
  {
    if totalPages == 0 then []
    else
      var (startPage, endPage) := WindowBounds(currentPage, totalPages, pagesToDisplay);
      Range(startPage, endPage)
  }

  /** getPageNumbers: builds the window by pushing `startPage..endPage` in a
      loop. */
  method GetPageNumbers(currentPage: int, totalPages: int, pagesToDisplay: int)
    returns (pageNumbers: seq<int>)
    ensures pageNumbers == PageWindow(currentPage, totalPages, pagesToDisplay)
  {
    if totalPages == 0 {
      return [];
    }
    pageNumbers := [];
    var mid := pagesToDisplay / 2;
    var startPage, endPage;
    if totalPages == pagesToDisplay {
      startPage := 1;
      endPage := totalPages;
    } else {
      if currentPage <= mid {
        startPage := 1;
      } else {
        startPage := currentPage - mid;
      }
      if totalPages <= pagesToDisplay {
        endPage := totalPages;
      } else {
        endPage := startPage + pagesToDisplay - 1;
      }
    }
    assert (startPage, endPage) == WindowBounds(currentPage, totalPages, pagesToDisplay);
    var i := startPage;
    while i <= endPage
      invariant startPage <= i
      invariant i <= endPage + 1 || i == startPage
      invariant |pageNumbers| == i - startPage
      invariant forall k :: 0 <= k < |pageNumbers| ==> pageNumbers[k] == startPage + k
      decreases endPage - i
    {
      pageNumbers := pageNumbers + [i];
      i := i + 1;
    }
    assert |pageNumbers| == |Range(startPage, endPage)|;
  }

  /** With more pages than the window holds, the window is exactly
      `pagesToDisplay` pages from its start, and its last entry is not limited
      to the page count: near the end it names pages that do not exist. */
  lemma WindowTailNotClamped(currentPage: int, totalPages: int, pagesToDisplay: int)
    requires 0 < pagesToDisplay < totalPages
    requires currentPage > pagesToDisplay / 2
    ensures var r := PageWindow(currentPage, totalPages, pagesToDisplay);
            |r| == pagesToDisplay &&
            r[|r| - 1] == currentPage - pagesToDisplay / 2 + pagesToDisplay - 1 &&
            (currentPage + (pagesToDisplay - 1) / 2 > totalPages ==> r[|r| - 1] > totalPages)
  {
  }

  /** A concrete instance: ten pages, a window of four, standing on the last
      page. */
  lemma WindowOnLastOfTenPages()
    ensures PageWindow(10, 10, 4) == [8, 9, 10, 11]
  {
    assert PageWindow(10, 10, 4) == Range(8, 11);
  }

  // ---------------------------------------------------------------------------
  // calculatePageIndex, getCurrentListOfUsers, getTotalPages

  datatype PageIndex = PageIndex(indexOfFirstUser: int, indexOfLastUser: int)

  /** The index range `[indexOfFirstUser, indexOfLastUser)` of a page: it is
      `userPerPage` wide and starts after the `currentPage - 1` full pages in
      front of it. */
  function CalculatePageIndex(currentPage: int, userPerPage: int): (r: PageIndex)
    ensures r.indexOfLastUser - r.indexOfFirstUser == userPerPage
    ensures r.indexOfFirstUser == (currentPage - 1) * userPerPage
  {
    var indexOfLastUser := currentPage * userPerPage;
    PageIndex(indexOfLastUser - userPerPage, indexOfLastUser)
  }

  /** The users on page `currentUserPage`: the list sliced to the page's index
      range. For a page from 1 on, that is the run of at most `userPerPage`
      users after the earlier pages; page 0 is always empty. */
  function GetCurrentListOfUsers(userList: seq<User>, currentUserPage: int, userPerPage: int)
    : (r: seq<User>)
    ensures currentUserPage >= 1 && userPerPage > 0 ==>
              |r| == Min(userPerPage, Max0(|userList| - (currentUserPage - 1) * userPerPage))
    ensures currentUserPage >= 1 && userPerPage > 0 ==>
              forall k :: 0 <= k < |r| ==> r[k] == userList[(currentUserPage - 1) * userPerPage + k]
    ensures currentUserPage == 0 ==> r == []
  {
    var pageIndex := CalculatePageIndex(currentUserPage, userPerPage);
    if currentUserPage >= 1 && userPerPage > 0 then
      PageSliceFacts(currentUserPage, userPerPage);
      Slice(userList, pageIndex.indexOfFirstUser, pageIndex.indexOfLastUser)
    else
      Slice(userList, pageIndex.indexOfFirstUser, pageIndex.indexOfLastUser)
  }

  lemma PageSliceFacts(currentPage: int, userPerPage: int)
    requires currentPage >= 1 && userPerPage > 0
    ensures (currentPage - 1) * userPerPage >= 0
    ensures currentPage * userPerPage == (currentPage - 1) * userPerPage + userPerPage
  {
  }

  /** `Math.ceil(a / b)` for a count `a` and a positive divisor. */
  function CeilDiv(a: nat, b: int): (r: nat)
    requires b > 0
    ensures (r - 1) * b < a <= r * b
  {
    (a + b - 1) / b
  }

  /** The number of pages needed for the list: the least page count whose
      pages hold every user. */
  function GetTotalPages(userList: seq<User>, userPerPage: int): (r: nat)
    requires userPerPage > 0
    ensures (r - 1) * userPerPage < |userList| <= r * userPerPage
    ensures r == 0 <==> userList == []
  {
    CeilDiv(|userList|, userPerPage)
  }

  /** Page `currentPage` (from 0 on) shows somebody exactly when it is one of
      the pages counted by the page count. */
  lemma PageNonEmptyIff(userList: seq<User>, currentPage: int, userPerPage: int)
    requires userPerPage > 0 && currentPage >= 0
    ensures GetCurrentListOfUsers(userList, currentPage, userPerPage) != []
            <==> 1 <= currentPage <= GetTotalPages(userList, userPerPage)
  {
    var total := GetTotalPages(userList, userPerPage);
    if currentPage >= 1 {
      var before := (currentPage - 1) * userPerPage;
      if currentPage > total {
        MulMonotone(total, currentPage - 1, userPerPage);
      } else {
        MulMonotone(currentPage - 1, total - 1, userPerPage);
      }
    }
  }

  lemma MulMonotone(x: int, y: int, n: int)
    requires x <= y && n > 0
    ensures x * n <= y * n
  {
  }

  /** Every user is shown on exactly the page its index falls in, at its
      offset within that page. */
  lemma UserOnItsPage(userList: seq<User>, userPerPage: int, i: int)
    requires userPerPage > 0 && 0 <= i < |userList|
    ensures var page := i / userPerPage + 1;
            var shown := GetCurrentListOfUsers(userList, page, userPerPage);
            1 <= page <= GetTotalPages(userList, userPerPage) &&
            i % userPerPage < |shown| && shown[i % userPerPage] == userList[i]
  {
    var page := i / userPerPage + 1;
    assert (page - 1) * userPerPage + i % userPerPage == i;
    PageNonEmptyIff(userList, page, userPerPage);
  }

  // ---------------------------------------------------------------------------
  // getCheckedUsers

  /** The ids of the checked users, in list order. The ensures speak of
      membership only; `CheckedUsersConcat` fixes the order and the repeats. */
  function GetCheckedUsers(users: seq<User>): (r: seq<UserId>)
    ensures |r| <= |users|
    ensures forall id :: id in r <==> exists u :: u in users && u.isSelected && u.id == id
  {
    if users == [] then []
    else
      var rest := GetCheckedUsers(users[1..]);
      assert forall u :: u in users <==> u == users[0] || u in users[1..];
      if users[0].isSelected then [users[0].id] + rest else rest
  }

  /** Checked ids keep the order of their rows: the ids of two lists put
      together are the ids of the first followed by those of the second. */
  lemma {:induction false} CheckedUsersConcat(a: seq<User>, b: seq<User>)
    ensures GetCheckedUsers(a + b) == GetCheckedUsers(a) + GetCheckedUsers(b)
  {
    if a == [] {
      assert a + b == b;
    } else {
      assert (a + b)[0] == a[0] && (a + b)[1..] == a[1..] + b;
      CheckedUsersConcat(a[1..], b);
    }
  }

  /** Ticking every row checks exactly the ids of those rows, in order;
      clearing every row checks none. */
  lemma {:induction false} CheckedAfterSelectAll(rows: seq<User>, checked: bool)
    ensures GetCheckedUsers(WithSelection(rows, checked)) == (if checked then Ids(rows) else [])
  {
    if rows != [] {
      CheckedAfterSelectAll(rows[1..], checked);
      assert WithSelection(rows, checked)[1..] == WithSelection(rows[1..], checked);
    }
  }

  /** The ids of the rows, in order. */
  function Ids(rows: seq<User>): (r: seq<UserId>)
    ensures |r| == |rows|
    ensures forall i :: 0 <= i < |rows| ==> r[i] == rows[i].id
  {
    if rows == [] then [] else [rows[0].id] + Ids(rows[1..])
  }
}
