# admin-ui: the table's paging, search and selection logic in Dafny

This project models the client-side logic behind the admin-ui user table.
The table loads a list of members once, then lets the user do four things:

- search them by name, email or role;
- page through them ten at a time, with a window of page numbers and arrow and skip buttons;
- tick rows, one at a time or all on the page;
- edit and delete rows.

The model has one module per source file, plus two support modules:

| module | file | what it holds |
|---|---|---|
| `Js` | Js.dfy | The JavaScript built-ins the code relies on: `Array.prototype.filter`, `findIndex` (with its `-1`), `slice` (with negative indices resolved against the length), `String.prototype.includes`, an ASCII `toLowerCase`, and an `Option` for values that may be `undefined`. |
| `UserRecord` | UserRecord.dfy | The member record and the "set every checkbox" map. |
| `Utils` | Utils.dfy | `src/utils/utils.js`. `getPageNumbers` keeps its loop as a method, proved equal to the window function `PageWindow`. |
| `UserSlice` | UserSlice.dfy | `src/features/users/userSlice.js`. The Redux slice is the class `UserStore`, whose reducers are methods that update `users`, `error` and `loading`. Each is proved against a function on the record list. |
| `Pagination` | Pagination.dfy | `src/components/Pagination.js`. The button handlers are decision functions. The component's `pageNumbers` state and its page-number effect are the class `Pager`. |
| `UserTable` | UserTable.dfy | `src/components/UserTable.js`. The component state is the class `TableState`. Each handler, and each effect body, is a method. |
| `Scenarios` | Scenarios.dfy | Runs of the table, built from those methods and checked against their contracts alone: deleting the only row of the last page, a search that finds nobody, a delete and an edit during a search, and a search typed on a later page. |

React decides when an effect runs, from its dependency list. Here each effect body is a method, and the caller decides when to run it.

Two effects read a value captured at their own render, not the value just set:

- The effect at `UserTable.js:99-106` sets the count from the projection as it was before the projection is recomputed. `UsersEffect` reads the old value.
- The step-back effect at `UserTable.js:123-131` compares against the `lastPage` of its own render. A caller runs `StepBackEffect` before `PaginationEffect` to reproduce this.

The page size is the constant `UserPerPage = 10`, because the table never calls its setter. `Math.ceil(a / b)` is the integer ceiling division `CeilDiv`. A `Math.floor` by 2 is Dafny's `/`, which rounds down for a positive divisor.

## Where the code and the design intent differ

The model follows the code in each of these cases:

- **The "not found" flag is never lowered.** `userNotFound` is set at `UserTable.js:81`, and nothing resets it. Once a search finds nobody, clearing the search brings the rows back, but the flag stays raised. `Scenarios.ClearSearchAfterNobody` shows this.
- **Select-all is page-scoped and is not stored.** `handleSeleteAll` (`UserTable.js:213-222`) rewrites only the visible rows. It does not dispatch to the store. The next re-slice from the store therefore shows those rows unticked again. A row's own checkbox goes to the store (`userSlice.js:44-54`), so it survives paging (`UserTable.RowSelectionSurvivesPaging`).
- **Bulk delete only sees the visible page.** The bulk-delete button (`UserTable.js:302-306`) deletes the ticked rows of the visible page only. It does not look at every ticked record in the store.
- **Editing during a search briefly shows the whole projection.** `updateUserInfo` (`UserTable.js:183`) replaces the visible list with the whole edited projection, not with its current page. This lasts until the next effect pass: the store change re-filters (`UserTable.js:101`), and the projection's own effect (`UserTable.js:111-117`) then shows its current page again. `Scenarios.EditDuringSearchSettles` shows the settled state.
- **The page window's tail is not clamped.** With more pages than window slots, the window's end is `startPage + pagesToDisplay - 1` (`utils.js:52`), even when that is past the last page. `Utils.WindowTailNotClamped` and `Utils.WindowOnLastOfTenPages` show this. `Pagination.NextPastTheLastPage` shows its consequence: the right arrow on the last page moves to an empty page.
- **A search typed on a later page can strand the table on an empty page.** Suppose the table shows page 5 and the user types a text that matches five records. The projection's effect (`UserTable.js:111-117`) slices page 5 of the matches, which is empty. The step-back effect (`UserTable.js:123-131`) compares against the last page its render knew, 5, so it moves to page 4 once. The bar (`Pagination.js:20-27`) then reports 1 as the last page, and no further step back happens. The table stays on page 4 with no rows although matches exist, and the window is `[1]`. The comment at `UserTable.js:119-122` says the step back is meant to show the data of the previous page, so a page with matches should not show an empty list. `Scenarios.SearchFromLaterPage` shows this; its left arrow then asks for page 3, outside the window.
- **Deleting during a search briefly reports a stale count.** For one effect pass after a delete during a search, the count is the size of the projection before the delete (`UserTable.js:101-102`). On the next pass the projection's own effect (`UserTable.js:111-117`) sets the count from the new projection. If the new projection is empty, the not-found rule (`UserTable.js:79-85`) sets it to 0 instead. `Scenarios.DeleteDuringSearchSettles` shows the settled state.

## Model

| member | source | states |
|---|---|---|
| Js.Filter | src/utils/utils.js:114-116 | `Array.prototype.filter`: a record is kept exactly when it is in the input and passes the test. The result is a subsequence of the input, so order is preserved. |
| Js.FilterConcat | src/features/users/userSlice.js:40-42 | Filtering a concatenation is filtering each part and concatenating. This is why deleting keeps the original order. |
| Js.FilterIdempotent | src/features/users/userSlice.js:40-42 | Filtering twice by the same test is filtering once. |
| Js.FindIndex | src/features/users/userSlice.js:27 | `findIndex` returns -1 exactly when no element matches. Otherwise it returns the index of the first match. |
| Js.Slice | src/utils/utils.js:73 | `slice(begin, end)`: the length is the clipped range after negative indices are resolved against the length, and the elements are those of that range. |
| Js.Includes | src/utils/utils.js:13-15 | `includes` is true whenever the needle is a prefix of the text, and never when the needle is longer than the text. `Js.IncludesIsSubstring` gives the full equivalence with a substring. |
| Js.IncludesIsSubstring | src/utils/utils.js:13-15 | `includes` is true exactly when the needle occurs at some position of the text. |
| Js.ToLower | src/utils/utils.js:13-15 | The ASCII `toLowerCase`: it keeps the length and lower-cases each ASCII letter in place, leaving every other character as it is. |
| Js.ToLowerIdempotent | src/utils/utils.js:13-15 | Lower-casing a lower-cased string changes nothing. |
| UserRecord.WithSelection | src/features/users/userSlice.js:64-66 | Setting every checkbox keeps the length, sets each row's `isSelected` and leaves every other field as it was. |
| Utils.UserFilter | src/utils/utils.js:11-17 | A user matches exactly when the lower-cased key is a substring of the lower-cased name, email or role. The empty key matches everybody. |
| Utils.UserFilterIgnoresKeyCase | src/utils/utils.js:13-15 | Whether a user matches does not depend on the case of the key. |
| Utils.Range | src/utils/utils.js:56-58 | The run `lo..hi` has `max(0, hi - lo + 1)` entries, each one more than the previous. |
| Utils.PageWindow | src/utils/utils.js:29-61 | No pages give an empty window. When the page count equals the window size, the window is exactly `1..totalPages`. Otherwise the window is a consecutive run: it starts at 1 up to the middle of the window and at `currentPage - mid` after it, and that start is at least 1 from page 1 on. With more pages than slots it has exactly `pagesToDisplay` entries. With fewer pages (but at least one) it is exactly the run from that start to the page count. |
| Utils.GetPageNumbers | src/utils/utils.js:29-61 | The loop that pushes `startPage..endPage` yields exactly `PageWindow`. |
| Utils.WindowTailNotClamped | src/utils/utils.js:49-53 | With more pages than slots and the current page past the middle, the window has `pagesToDisplay` entries. It ends at `currentPage - mid + pagesToDisplay - 1`, which is past the last page once `currentPage + (pagesToDisplay - 1) / 2` exceeds it. |
| Utils.WindowOnLastOfTenPages | src/utils/utils.js:49-53 | On the last of ten pages, a window of four is `[8, 9, 10, 11]`. |
| Utils.CalculatePageIndex | src/utils/utils.js:94-102 | The index range of a page is `userPerPage` wide and starts at `(currentPage - 1) * userPerPage`. |
| Utils.GetCurrentListOfUsers | src/utils/utils.js:70-76 | From page 1 on, the page holds `min(userPerPage, max(0, len - (page - 1) * userPerPage))` users, taken in order from index `(page - 1) * userPerPage`. Page 0 is empty. |
| Utils.CeilDiv | src/utils/utils.js:85 | `Math.ceil(a / b)` is the least `r` with `a <= r * b`. |
| Utils.GetTotalPages | src/utils/utils.js:84-86 | The page count is the least number of pages that holds every user. It is 0 exactly for the empty list. |
| Utils.PageNonEmptyIff | src/utils/utils.js:70-86 | A page from 0 on shows somebody exactly when it is between 1 and the page count. |
| Utils.UserOnItsPage | src/utils/utils.js:70-86 | Every user is shown on page `i / userPerPage + 1`, which is within the page count, at offset `i % userPerPage`. |
| Utils.GetCheckedUsers | src/utils/utils.js:113-119 | An id is returned exactly when some ticked user has it. There are never more ids than users. |
| Utils.CheckedUsersConcat | src/utils/utils.js:113-119 | The checked ids of two lists put together are those of the first followed by those of the second. This is the order guarantee. |
| Utils.CheckedAfterSelectAll | src/components/UserTable.js:213-222 | After every row is ticked, the checked ids are exactly the rows' ids, in order. After every row is cleared, there are none. |
| UserSlice.IndexOfId | src/features/users/userSlice.js:27 | -1 exactly when no record has the id. Otherwise it is the index of the first record with the id. |
| UserSlice.EditUser | src/features/users/userSlice.js:25-35 | The length is kept. Only the first record with the id changes: it gets the new name, email and role and keeps its id and checkbox. Every other index is unchanged. An absent id changes nothing. |
| UserSlice.EditWithSameValues | src/features/users/userSlice.js:25-35 | Editing a record with the values it already has leaves the list unchanged. |
| UserSlice.EditTwiceLastWins | src/features/users/userSlice.js:25-35 | Two edits of the same id amount to the second edit alone. |
| UserSlice.RemoveIds | src/features/users/userSlice.js:40-42 | No record with a listed id survives. Every other record is kept. The result is a subsequence of the input. |
| UserSlice.RemoveIdsCount | src/features/users/userSlice.js:40-42 | A delete removes exactly the records whose id is listed: the number of survivors plus the number of records with a listed id is the length of the old list. |
| UserSlice.RemoveIdsIdempotent | src/features/users/userSlice.js:40-42 | Deleting the same ids again changes nothing. |
| UserSlice.RemovedIdsAreNotChecked | src/features/users/userSlice.js:40-42 | No deleted id is among the checked ids afterwards. |
| UserSlice.SelectById | src/features/users/userSlice.js:44-54 | The length is kept. Every record with the id gets the new checkbox state. Every other record keeps its state, and no other field changes. |
| UserSlice.CheckedAfterSelect | src/features/users/userSlice.js:44-54 | After a tick, the id is checked exactly when it was ticked and some record has it. Every other id keeps its checked state. |
| UserSlice.UserStore.constructor | src/features/users/userSlice.js:4-8 | The initial state: no users, no error, not loading. |
| UserSlice.UserStore.EditUserData | src/features/users/userSlice.js:25-36 | The in-place rewrite leaves `users` equal to `EditUser` of the old records. `error` and `loading` are unchanged. |
| UserSlice.UserStore.DeleteUserData | src/features/users/userSlice.js:37-43 | `users` becomes `RemoveIds` of the old records. Nothing else changes. |
| UserSlice.UserStore.UserDataSelect | src/features/users/userSlice.js:44-55 | `users` becomes `SelectById` of the old records. Nothing else changes. |
| UserSlice.UserStore.FetchPending | src/features/users/userSlice.js:58-60 | `loading` is raised. `users` and `error` are unchanged. |
| UserSlice.UserStore.FetchFulfilled | src/features/users/userSlice.js:61-68 | `users` is the payload with every checkbox cleared, so nothing is checked. `error` is empty and `loading` is lowered. |
| UserSlice.UserStore.FetchRejected | src/features/users/userSlice.js:69-73 | There are no users, `error` is the failure message and `loading` is lowered. |
| Pagination.PrevAndNext | src/components/Pagination.js:43-52 | The left arrow moves to `currentPage - 1` exactly when the page is after the window's first entry. The right arrow moves to `currentPage + 1` exactly when the page is before the window's last entry. The left arrow never goes below the window's first entry, and the right arrow never goes above its last entry. With an empty window, neither moves. |
| Pagination.SkipButton | src/components/Pagination.js:60-69 | Skip-left goes to 1 exactly when the page is not before the window. Skip-right goes to the page count exactly when the page is not after the window. With an empty window, neither moves. |
| Pagination.NextPage | src/components/Pagination.js:33-35 | A page number is passed through unchanged. An arrow moves the page by at most one. A skip button lands on 1 or on the page count. With an empty window, the buttons leave the page where it is. |
| Pagination.NavigationWithFullWindow | src/components/Pagination.js:43-69 | With the window the table configures (one slot per page), the left arrow is live exactly off page 1 and the right arrow exactly before the last page. The skip buttons reach page 1 and the last page. Every click from a page in range lands on a page in range. |
| Pagination.NextPastTheLastPage | src/components/Pagination.js:46-51 | With three or more slots and more pages than slots, the right arrow on the last page asks for the page after it, and that page shows nobody. |
| Pagination.Pager.constructor | src/components/Pagination.js:14 | The bar starts with no page numbers. |
| Pagination.Pager.Refresh | src/components/Pagination.js:15-27 | The window is recomputed from `Math.ceil(totalUsers / userPerPage)`. A last page is reported exactly when the window is non-empty, and it is the window's last entry. |
| UserTable.Matching | src/components/UserTable.js:142 | The projection holds exactly the users that match, as a subsequence of the list. |
| UserTable.NothingMatchingIff | src/components/UserTable.js:79-85 | The projection is empty exactly when no user matches the search text. |
| UserTable.EmptySearchMatchesAll | src/components/UserTable.js:140-146 | The empty text matches the whole list. The handler clears the projection for it instead. |
| UserTable.SelectAllThenBulkDelete | src/components/UserTable.js:213-222 | Select-all followed by the bulk-delete button deletes exactly the records whose ids are on the visible page. |
| UserTable.RowSelectionSurvivesPaging | src/features/users/userSlice.js:44-54 | A row ticked in the store is ticked on whichever page later shows it. Every other row keeps its own state. |
| UserTable.TableState.constructor | src/components/UserTable.js:27-37 | The initial component state: page 1, window size 5, empty lists, nothing selected, no last page yet. |
| UserTable.TableState.FilterUserData | src/components/UserTable.js:138-147 | With a non-empty text, the projection is the matching users in list order. With the empty text, it is empty. |
| UserTable.TableState.UpdateCurrentListOfUsers | src/components/UserTable.js:154-159 | The visible rows are the current page of the given data. |
| UserTable.TableState.UpdateUserInfo | src/components/UserTable.js:169-195 | The projection's first record with the id is edited as in the store. The visible list becomes the whole projection exactly when the projection had the id; otherwise it is unchanged. The store receives the same edit. |
| UserTable.TableState.DeleteUser | src/components/UserTable.js:202-206 | The store's records lose the listed ids, and select-all is cleared. |
| UserTable.TableState.DeleteSelected | src/components/UserTable.js:302-306 | The ids deleted are the checked ids of the visible rows only. |
| UserTable.TableState.HandleSelectAll | src/components/UserTable.js:213-222 | Select-all flips, and every visible row gets the given checkbox state. The store is untouched. |
| UserTable.TableState.SetSearchText | src/components/UserTable.js:241 | The search box's handler stores the typed text as the search text. |
| UserTable.TableState.Navigate | src/components/UserTable.js:313-315 | The current page becomes the page the clicked button asks for. |
| UserTable.TableState.MountEffect | src/components/UserTable.js:46-51 | The load is dispatched (its pending case applies), and the visible rows are sliced from the records held then. |
| UserTable.TableState.SearchEffect | src/components/UserTable.js:70-73 | The projection is recomputed for the current text. |
| UserTable.TableState.ViewEffect | src/components/UserTable.js:78-91 | If the projection is empty and there is a search text, nobody was found: the flag is raised, the count is 0 and no rows are shown. If the projection is empty and there is no search text, the rows are the current page of all records, the count is their number, and the window size is their page count. With a live projection, nothing changes. |
| UserTable.TableState.UsersEffect | src/components/UserTable.js:99-106 | A live projection is recomputed, and the count is its size from before. Otherwise the count is the number of records. |
| UserTable.TableState.FilteredEffect | src/components/UserTable.js:111-117 | With a live projection, the rows are its current page, and the window size and the count follow its size. |
| UserTable.TableState.StepBackEffect | src/components/UserTable.js:123-131 | The page steps back by one exactly when the visible list is empty, the page is the reported last page, and the view is not the "nobody found" one. |
| UserTable.TableState.PaginationEffect | src/components/Pagination.js:20-27 | The bar's window is recomputed from the table's count. The table's last page becomes its last entry, and keeps its old value when the window is empty. |
| Scenarios.StepBackFromEmptiedPage | src/components/UserTable.js:119-131 | The page is 2, now empty, with ten records left. The table steps back to page 1, which shows the ten records, and the bar reports page 1 as the last page. |
| Scenarios.ClearSearchAfterNobody | src/components/UserTable.js:78-91 | Clearing the search after finding nobody shows the records again, but the not-found flag stays raised. |
| Scenarios.DeleteDuringSearchSettles | src/components/UserTable.js:99-117 | After a delete during a search, the store-change effect re-filters. Once the projection's own effect has run, the count is the new projection's size and the rows are its current page. |
| Scenarios.EditDuringSearchSettles | src/components/UserTable.js:169-195 | After an edit during a search, the same two effects leave the rows at the current page of the re-filtered projection, not the whole projection. |
| Scenarios.SearchFromLaterPage | src/components/UserTable.js:111-131 | A search matching five records typed on page 5 ends on page 4 with no rows, the bar showing `[1]` and reporting 1 as the last page; the left arrow there asks for page 3. |

## Left out

- The HTTP request in `fetchUsers` (`userSlice.js:10-20`) is network I/O. Its two outcomes enter the model as the payload of `FetchFulfilled` and the message of `FetchRejected`. The payload is modelled as a sequence of records with `id`, `name`, `email` and `role`.
- When React runs each effect (dependency lists, render order, batching of state updates) is not modelled. The callers of the effect methods choose the order. The JSX trees, the snackbars and `handleSnackbarClose` are presentation only.
- The forwarding components `NavButton.js`, `SearchBar.js`, `TableHeader.js`, `DeleteButton.js` and `UserRow.js` only pass their arguments to the modelled handlers.
- Js.ToLower: lower-cases the ASCII letters `A`-`Z` only. JavaScript's `toLowerCase` also maps other Unicode letters, such as `É` to `é`, and a few characters to more than one.
- Utils.UserFilter: lower-cases ASCII letters only. JavaScript's `toLowerCase` also folds other Unicode letters.
- UserTable.TableState.constructor: the count starts at 0, not `undefined`. In the code, the first run of the page-number effect computes `Math.ceil(undefined / 10)`, which is `NaN`. That run yields the window `1..5` and reports 5 as the last page before the first count is set. The model's first window is empty instead. The table's last page is `None` until the bar first reports one, matching its `undefined` start.
- Pagination.Pager.Refresh: the effect runs only when the count or the current page changes, not when the window size alone changes. Which runs happen is up to the caller.
- Utils.CeilDiv: assumes a positive page size. The table's page size is the constant 10, so `Math.ceil` of a division by 0, and the `Infinity`/`NaN` results that follow, never arise.
- The extra `true` argument the bulk-delete button passes to `deleteUser` (`UserTable.js:305`) is ignored by the handler, and by the model.
- The `console.log` in `deleteUserData` (`userSlice.js:39`) is output only.
- In the code, `updateUserInfo` leaves the visible list and the projection as the same array, so a later in-place edit changes both. The model assigns the edited projection to both fields on every edit that finds the id in the projection, which gives the same values.
