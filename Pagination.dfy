/** The pagination bar: the window of page numbers it keeps as state, the
    last page it reports to the table, and the page each button asks for. */
module Pagination {
  import opened Js
  import opened UserRecord
  import opened Utils

  /** The `typeOfAction` argument of the arrow and skip buttons. */
  datatype Side = Left | Right

  /** A click on the bar: a page number, an arrow, or a skip button. */
  datatype Action = GoTo(number: int) | Step(side: Side) | Skip(side: Side)

  function Last(pageNumbers: seq<int>): int
    requires pageNumbers != []
  {
    pageNumbers[|pageNumbers| - 1]
  }

  /** handlePrevAndNext: the page the arrow asks for, or None when it does not
      change the page. An arrow only moves by one and never past the first or
      last entry of the window; with an empty window the comparison is made
      against a missing entry and fails, so nothing moves. */
  function PrevAndNext(side: Side, currentPage: int, pageNumbers: seq<int>): (r: Option<int>)
    ensures pageNumbers == [] ==> r == None
    ensures side == Left ==> (r.Some? <==> pageNumbers != [] && currentPage > pageNumbers[0])
    ensures side == Right ==> (r.Some? <==> pageNumbers != [] && currentPage < Last(pageNumbers))
    ensures r.Some? && side == Left ==> r.value == currentPage - 1 && r.value >= pageNumbers[0]
    ensures r.Some? && side == Right ==> r.value == currentPage + 1 && r.value <= Last(pageNumbers)
  {
    if side == Left && pageNumbers != [] && currentPage > pageNumbers[0] then Some(currentPage - 1)
    else if side == Right && pageNumbers != [] && currentPage < Last(pageNumbers) then Some(currentPage + 1)
    else None
  }

  /** handlePrevAndNextSkipButton: the left button goes to page 1 and the
      right one to the page count, each only while the current page is not
      before (respectively after) the window; an empty window disables both. */
  function SkipButton(side: Side, currentPage: int, pageNumbers: seq<int>, totalPages: int)
    : (r: Option<int>)
    ensures pageNumbers == [] ==> r == None
    ensures side == Left ==> (r.Some? <==> pageNumbers != [] && currentPage >= pageNumbers[0])
    ensures side == Right ==> (r.Some? <==> pageNumbers != [] && currentPage <= Last(pageNumbers))
    ensures r.Some? ==> r.value == if side == Left then 1 else totalPages
  {
    if side == Left && pageNumbers != [] && currentPage >= pageNumbers[0] then Some(1)
    else if side == Right && pageNumbers != [] && currentPage <= Last(pageNumbers) then Some(totalPages)
    else None
  }

  /** The current page after a click: a page number is passed through
      unchanged (handlePageChange); an arrow or skip button that declines
      leaves the page where it was. */
  function NextPage(action: Action, currentPage: int, pageNumbers: seq<int>, totalPages: int)
    : (r: int)
    ensures action.GoTo? ==> r == action.number
    ensures !action.GoTo? && pageNumbers == [] ==> r == currentPage
    ensures action.Step? ==> r == currentPage || r == currentPage - 1 || r == currentPage + 1
    ensures action.Skip? ==> r == currentPage || r == 1 || r == totalPages
  {
    var asked := match action
      case GoTo(number) => Some(number)
      case Step(side) => PrevAndNext(side, currentPage, pageNumbers)
      case Skip(side) => SkipButton(side, currentPage, pageNumbers, totalPages);
    if asked.Some? then asked.value else currentPage
  }

  /** With the window the table configures (as many slots as pages), every
      click from a page in range lands on a page in range: the left arrow is
      live exactly off page 1, the right arrow exactly before the last page,
      and the skip buttons reach page 1 and the last page. */
  lemma NavigationWithFullWindow(action: Action, currentPage: int, totalPages: int)
    requires 1 <= currentPage <= totalPages
    requires action.GoTo? ==> action.number in PageWindow(currentPage, totalPages, totalPages)
    ensures var w := PageWindow(currentPage, totalPages, totalPages);
            && (PrevAndNext(Left, currentPage, w).Some? <==> currentPage > 1)
            && (PrevAndNext(Right, currentPage, w).Some? <==> currentPage < totalPages)
            && SkipButton(Left, currentPage, w, totalPages) == Some(1)
            && SkipButton(Right, currentPage, w, totalPages) == Some(totalPages)
            && 1 <= NextPage(action, currentPage, w, totalPages) <= totalPages
  {
    var w := PageWindow(currentPage, totalPages, totalPages);
    assert w == Range(1, totalPages);
    assert w[0] == 1 && Last(w) == totalPages;
    if action.GoTo? {
      var k :| 0 <= k < |w| && w[k] == action.number;
    }
  }

  /** Because the window's end is not limited to the page count, with three
      or more slots and more pages than slots the right arrow on the last page
      is live and moves to a page past the end, which shows nobody. */
  lemma NextPastTheLastPage(totalPages: int, pagesToDisplay: int, userList: seq<User>, userPerPage: int)
    requires 3 <= pagesToDisplay < totalPages
    requires userPerPage > 0 && totalPages == GetTotalPages(userList, userPerPage)
    ensures PrevAndNext(Right, totalPages, PageWindow(totalPages, totalPages, pagesToDisplay))
            == Some(totalPages + 1)
    ensures GetCurrentListOfUsers(userList, totalPages + 1, userPerPage) == []
  {
    WindowTailNotClamped(totalPages, totalPages, pagesToDisplay);
    PageNonEmptyIff(userList, totalPages + 1, userPerPage);
  }

  /** The component state of the bar: the page numbers it shows. */
  class Pager {
    var pageNumbers: seq<int>

    constructor ()
      ensures pageNumbers == []
    {
      pageNumbers := [];
    }

    /** The page-number effect: recomputes the window from the page count
        `Math.ceil(totalUsers / userPerPage)` and reports its last entry as
        the table's last page, but only when the window is not empty. */
    method Refresh(currentPage: int, totalUsers: nat, userPerPage: int, pagesToDisplay: int)
      returns (lastPage: Option<int>)
      requires userPerPage > 0
      modifies this
      ensures pageNumbers == PageWindow(currentPage, CeilDiv(totalUsers, userPerPage), pagesToDisplay)
      ensures lastPage.Some? <==> pageNumbers != []
      ensures lastPage.Some? ==> lastPage.value == Last(pageNumbers)
    {
      var totalPages := CeilDiv(totalUsers, userPerPage);
      var numbers := GetPageNumbers(currentPage, totalPages, pagesToDisplay);
      pageNumbers := numbers;
      if |numbers| != 0 {
        lastPage := Some(numbers[|numbers| - 1]);
      } else {
        lastPage := None;
      }
    }
  }
}
