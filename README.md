# Library list views — a Dafny model

This project models the sortable, paginated list views of a library web client. The client is a React application in which readers, librarians and administrators browse books, loans, archived loans, reviews and users. Each list view keeps its state in component variables:

- the sort direction (`order`) and the sort column (`orderBy`);
- the selected row ids;
- the current page and the page size;
- the rows the server delivered;
- for some views, a delete-confirmation dialog.

Every render the view does the same things:

- it projects the server records into flat table rows, filling missing fields with `|| 0` or `|| ''`;
- it sorts them with `stableSort(rows, getComparator(order, orderBy))`;
- it shows the slice of the current page;
- it pads a short last page with `emptyRows` blank rows.

The model covers:

- **the comparator** (module `Values` and module `Comparator`):
  - JavaScript's `<` on number and string cells;
  - `descendingComparator` and `getComparator`;
  - proofs that the comparator is consistent: swapping the arguments flips its sign, and "not after" is transitive.
- **`stableSort`** (module `StableSorting`):
  - the source decorates every row with its index, sorts with ties broken by index, and strips the index again;
  - the model is an in-place insertion sort on an `array` of decorated rows.
  - It is proved equal to a functional specification (`StableSorted`) and to be a permutation of the input in comparator order, with tied rows kept in input order.
  - Any strictly sorted permutation of the decorated rows strips to the same result, whichever algorithm produced it.
- **The pager** (module `Pager`):
  - JavaScript's `slice`, with clamping;
  - the page window and the `emptyRows` padding;
  - proofs that the padding completes a page, that full pages are not padded, and that the windows of consecutive pages concatenate to the rows.
- **Header clicks** (module `SortHeader`): `handleRequestSort`.
- **Row clicks** (module `Selection`):
  - the one-element selection toggle;
  - the filter-based toggle of the administrator's user list;
  - the expanded-row toggle of the review list.
- **The library client** (module `Api`):
  - replies, and the calls issued;
  - the alert an extend / return / add-to-queue action raises, whose failure message carries the status code, rendered with `${}` and provably read back;
  - the refetch rule: rows change only to delivered data;
  - delete-then-refetch.
- **The server records and projections** (module `Dtos`).
- **Composition** (module `ListView`): sort, then page.
- **One module per list view**. Each one holds:
  - its row type;
  - its cell typing (which columns are numeric);
  - its projection;
  - a `class` whose fields are the component's state variables and whose methods are its handlers.
  - Every handler states the component's whole new state.
  - Handlers that act on a toolbar (extend, return, add to queue) or navigate (reviews, borrow, edit) are modelled too.
  - The views are `LoansList`, `BookList`, `BookListLibrarian`, `BookListAdmin`, `ArchiveLoansLibrarian`, `ReviewListUser`, `UsersListAdmin` and `UsersListLibrarian`.

The library client's HTTP calls are not modelled. Each handler that calls the server takes the call's reply as a parameter: `Replied(success, data, statusCode)`, or `Threw` for a call that raised. The handler appends the call it made to a `requests` log. Navigation is recorded in a `route` field.

All eight views contain the same comparator, `stableSort`, pager and `handleRequestSort` code. The shared modules cite the copy in `src/loans-list/LoansList.tsx`.

## Model

| member | source | states |
|---|---|---|
| Values.StrLessIrreflexive | src/loans-list/LoansList.tsx:46-54 | No string is `<` itself. |
| Values.StrLessAsymmetric | src/loans-list/LoansList.tsx:46-54 | `a < b` and `b < a` never both hold on strings. |
| Values.StrLessTransitive | src/loans-list/LoansList.tsx:46-54 | `<` on strings is transitive. |
| Values.StrLessTotal | src/loans-list/LoansList.tsx:46-54 | Two strings are equal or one is `<` the other. |
| Values.LessAsymmetric | src/loans-list/LoansList.tsx:46-54 | `<` on cell values is asymmetric. |
| Values.LessTransitive | src/loans-list/LoansList.tsx:46-54 | `<` on cell values is transitive. |
| Values.LessTrichotomy | src/loans-list/LoansList.tsx:46-54 | Two cells are equal or one is `<` the other. |
| Comparator.DescendingComparator | src/loans-list/LoansList.tsx:46-54 | The result is -1 exactly when b's cell is less than a's, 1 exactly when it is greater, and 0 exactly when the cells are equal. |
| Comparator.CompareBy | src/loans-list/LoansList.tsx:58-68 | Ascending: negative exactly when a's cell is less than b's. Descending: negative exactly when b's cell is less than a's. Zero exactly when the cells are equal. |
| Comparator.GetComparator | src/loans-list/LoansList.tsx:58-68 | The returned comparator is consistent (sign flips on swap, "not after" is transitive) and agrees with CompareBy on every pair. |
| Comparator.CompareByConsistent | src/loans-list/LoansList.tsx:58-68 | The comparator for either order and any column is consistent. |
| Comparator.CompareBySwap | src/loans-list/LoansList.tsx:58-68 | Swapping the two rows negates the comparator. |
| Comparator.AscNegatesDesc | src/loans-list/LoansList.tsx:65-67 | The ascending comparator is the negated descending one. |
| StableSorting.BeforeOrder | src/loans-list/LoansList.tsx:75-81 | The index-tie-broken order is irreflexive, asymmetric, total on distinct indices and transitive. |
| StableSorting.InsertionSortSorted | src/loans-list/LoansList.tsx:70-83 | The specification sort yields a strictly sorted permutation of the decorated rows. |
| StableSorting.SortedPermutationUnique | src/loans-list/LoansList.tsx:70-83 | Two strictly sorted permutations of the same decorated rows are equal, so the result does not depend on the engine's sort algorithm. |
| StableSorting.AnySortAgrees | src/loans-list/LoansList.tsx:70-83 | Any strictly sorted permutation of the decorated rows strips to StableSorted. |
| StableSorting.StableSortedPermutation | src/loans-list/LoansList.tsx:70-83 | `stableSort` returns a permutation of its input. |
| StableSorting.StableSortedOrdered | src/loans-list/LoansList.tsx:70-83 | In the output, the comparator is at most 0 for every pair in order. |
| StableSorting.StableSortedIsStable | src/loans-list/LoansList.tsx:70-83 | Each output row is the input row at a distinct origin, and rows that tie keep their input order. |
| StableSorting.AllTiedKeepsInputOrder | src/loans-list/LoansList.tsx:70-83 | When every pair ties, the output is the input. |
| StableSorting.InsertInPlace | src/loans-list/LoansList.tsx:75-81 | Moving entry i left sorts the first i+1 entries and permutes the array. |
| StableSorting.SortInPlace | src/loans-list/LoansList.tsx:75-81 | The in-place sort leaves the array strictly sorted and permuted. |
| StableSorting.StableSort | src/loans-list/LoansList.tsx:70-83 | Returns StableSorted: a permutation of the rows in comparator order. |
| Pager.Slice | src/loans-list/LoansList.tsx:417 | `slice` clamps to the length: empty when start is at or past the end or end ≤ start, otherwise the elements from start up to min(end, length). |
| Pager.Window | src/loans-list/LoansList.tsx:417 | The page holds the rows from page*rowsPerPage on: at most rowsPerPage of them, the remaining count on a short last page, none past the end. |
| Pager.PaddingCompletesPage | src/loans-list/LoansList.tsx:403-404 | On a later page that has rows, the shown rows plus `emptyRows` fill exactly one page. |
| Pager.FullPageHasNoPadding | src/loans-list/LoansList.tsx:403-404 | A page inside the data is full and unpadded. |
| Pager.PageBeyondEnd | src/loans-list/LoansList.tsx:403-404 | A later page past the end shows no rows and at least a full page of padding. |
| Pager.FirstPageNeverPadded | src/loans-list/LoansList.tsx:403-404 | The first page is never padded and shows min(count, rowsPerPage) rows. |
| Pager.WindowsCoverRows | src/loans-list/LoansList.tsx:417 | The windows of pages 0..n-1, concatenated, are the first n*rowsPerPage rows. |
| Selection.IndexOf | src/loans-list/LoansList.tsx:374 | `indexOf` is -1 exactly when the id is absent, and otherwise the first position of the id. |
| Selection.IsSelected | src/loans-list/LoansList.tsx:401 | A row is selected exactly when its id is in `selected`. |
| Selection.Toggle | src/loans-list/LoansList.tsx:373-384 | Clicking an unselected id selects it alone; clicking a selected id clears the selection. |
| Selection.ToggleFlips | src/loans-list/LoansList.tsx:373-384 | A click flips the clicked row's selection and leaves at most one selected. |
| Selection.ToggleMovesSelection | src/loans-list/LoansList.tsx:373-384 | Clicking another row moves the selection to it. |
| Selection.ToggleTwice | src/loans-list/LoansList.tsx:373-384 | Two clicks on a row, starting from nothing selected, leave nothing selected. |
| Selection.Without | src/users-list/UsersListAdmin.tsx:148 | The filter keeps exactly the ids other than the clicked one. |
| Selection.FilterToggle | src/users-list/UsersListAdmin.tsx:142-151 | Clicking an unselected id selects it alone; clicking a selected id removes it and keeps the rest. |
| Selection.FilterToggleAgrees | src/users-list/UsersListAdmin.tsx:142-151 | While at most one id is selected, the filter toggle equals the one-element toggle. |
| Selection.ToggleExpanded | src/review-list/ReviewListUser.tsx:219-221 | The clicked row becomes the expanded row exactly when it was not, and no other row is expanded. |
| Selection.ToggleExpandedTwice | src/review-list/ReviewListUser.tsx:219-221 | Two clicks on a row restore a state where it or nothing was expanded; otherwise they collapse everything. |
| SortHeader.RequestSort | src/loans-list/LoansList.tsx:364-371 | The clicked column becomes the sort column, descending exactly when it was already ascending. |
| SortHeader.NewColumnSortsAscending | src/loans-list/LoansList.tsx:364-371 | A click on a different column sorts it ascending. |
| SortHeader.RepeatedClicksAlternate | src/loans-list/LoansList.tsx:364-371 | Repeated clicks alternate the direction with period two. |
| SortHeader.SecondClickReverses | src/loans-list/LoansList.tsx:364-371 | After a second click, every pair compares the opposite way. |
| Api.DigitsRoundTrip | src/loans-list/LoansList.tsx:147 | Decimal digits of a natural number read back to it. |
| Api.DecimalRoundTrip | src/loans-list/LoansList.tsx:147 | `${n}` of any integer reads back to n. |
| Api.FailureMessageCarriesStatus | src/loans-list/LoansList.tsx:145-149 | The status code can be read back from the failure message. |
| Api.FailureMessageInjective | src/loans-list/LoansList.tsx:145-149 | Different status codes give different failure messages. |
| Api.ActionAlert | src/loans-list/LoansList.tsx:136-157 | Success severity exactly when the call succeeded, with the success text. A refused call's message carries its status code. A raised call gives the error text. |
| Api.Refetched | src/loans-list/LoansList.tsx:351-358 | Rows become the reply's data exactly when it succeeded and carried data; otherwise they are unchanged. |
| Api.AfterDelete | src/book-list/BookListLibrarian.tsx:327-345 | Rows are replaced exactly when the delete succeeded and the refetch delivered; otherwise they are unchanged. |
| Api.DeleteCalls | src/book-list/BookListLibrarian.tsx:327-345 | The delete is always issued first; the refetch is issued exactly when the delete succeeded. |
| Dtos.OrZero | src/loans-list/LoansList.tsx:409 | `x \|\| 0` is the number when present and 0 when missing. |
| Dtos.OrEmpty | src/loans-list/LoansList.tsx:413-414 | `x \|\| ''` is the string when present and '' when missing. |
| Dtos.UserNameOf | src/loans-list/LoansList.tsx:410 | `user?.userName \|\| ''` is the name when user and name are present, and '' otherwise. |
| Dtos.TitleOf | src/loans-list/LoansList.tsx:411 | `book?.title \|\| ''` is the title when present, and '' otherwise. |
| Dtos.IsbnOf | src/loans-list/LoansList.tsx:412 | `book?.isbn \|\| ''` is the ISBN when present, and '' otherwise. |
| Dtos.AuthorOf | src/review-list/ReviewListUser.tsx:249 | `book?.author \|\| ''` is the author when present, and '' otherwise. |
| ListView.SortedRowsSpec | src/loans-list/LoansList.tsx:406-418 | The sorted rows are a permutation ordered by the sort column in the chosen direction, with ties in input order. |
| ListView.WindowOrdered | src/loans-list/LoansList.tsx:417 | Every page of ordered rows is ordered. |
| ListView.VisibleRowsSpec | src/loans-list/LoansList.tsx:406-418 | Visible rows are the sorted rows from page*rowsPerPage on: at most a page, the length formula holds, none past the end. They are input rows in column order. |
| ListView.Project | src/loans-list/LoansList.tsx:408-415 | `records.map(...)` gives one row per record, in order, each the record's projection. |
| ListView.VisibleProjected | src/loans-list/LoansList.tsx:406-418 | What a view shows is projected records: at most a page, none past the end, in sort-column order (the same for every view's projection). |
| LoansList.Cell | src/loans-list/LoansList.tsx:92-109 | Only the loan id column is numeric. |
| LoansList.ProjectionFallbacks | src/loans-list/LoansList.tsx:407-415 | Each row field is the loan's field, or 0 / '' when that field is missing. |
| LoansList.ExtendAlertChoice | src/loans-list/LoansList.tsx:129-158 | Extending raises success exactly on success, and the failure alert carries the status code. A raised call gives the error text. |
| LoansList.Toolbar.constructor | src/loans-list/LoansList.tsx:236 | The toolbar starts with no alert. |
| LoansList.Toolbar.HandleExtendLoan | src/loans-list/LoansList.tsx:129-158 | A falsy id changes nothing. Otherwise it issues one extend call and sets its alert. |
| LoansList.Toolbar.HandleReturnLoan | src/loans-list/LoansList.tsx:160-190 | A falsy id changes nothing. Otherwise it issues one return call and sets its alert. |
| LoansList.Toolbar.CloseAlert | src/loans-list/LoansList.tsx:283-285 | The alert is cleared. |
| LoansList.LoansListView.constructor | src/loans-list/LoansList.tsx:319-325 | The view starts ascending by id on page 0 with 5 rows per page, with no selection and no loans. |
| LoansList.LoansListView.FetchLoans | src/loans-list/LoansList.tsx:349-362 | Issues one fetch; loans change only to delivered data; nothing else changes. |
| LoansList.LoansListView.HandleRequestSort | src/loans-list/LoansList.tsx:364-371 | The sort state becomes RequestSort of the old one; nothing else changes. |
| LoansList.LoansListView.HandleClick | src/loans-list/LoansList.tsx:373-384 | The selection becomes Toggle of the old one and stays at most one id. |
| LoansList.LoansListView.HandleChangePage | src/loans-list/LoansList.tsx:386-388 | Only the page changes. |
| LoansList.LoansListView.HandleChangeRowsPerPage | src/loans-list/LoansList.tsx:390-395 | The page size becomes the chosen option and the page returns to 0. |
| LoansList.LoansListView.ExtendSelected | src/loans-list/LoansList.tsx:271-276 | The extend button acts on `selected[0]`: a falsy id issues no call and leaves the alert; any other id issues exactly one extend call and raises the extend alert. |
| LoansList.LoansListView.ReturnSelected | src/loans-list/LoansList.tsx:288-293 | The return button acts on `selected[0]`: a falsy id issues no call and leaves the alert; any other id issues exactly one return call and raises the return alert. |
| BookRows.Cell | src/book-list/BookList.tsx:37-45 | Exactly the id and available-copies columns are numeric. |
| BookRows.ProjectionFallbacks | src/book-list/BookList.tsx:397-405 | Each row field is the book's field, or 0 / '' when that field is missing. |
| BookList.ReviewsRoute | src/book-list/BookList.tsx:231-234 | The reviews route is `/getReviews?bookId=` followed by text that reads back to the book id. |
| BookList.AddToQueueAlertChoice | src/book-list/BookList.tsx:135-165 | Queueing raises success exactly on success; the failure alert carries the status code; a raised call gets the bare failure text. |
| BookList.Toolbar.constructor | src/book-list/BookList.tsx:222 | The toolbar starts with no alert. |
| BookList.Toolbar.HandleAddToQueue | src/book-list/BookList.tsx:135-165 | A falsy id changes nothing. Otherwise it issues one queue call and sets its alert. |
| BookList.Toolbar.HandleGetReviews | src/book-list/BookList.tsx:231-234 | Navigates to the book's reviews route. |
| BookList.Toolbar.CloseAlert | src/book-list/BookList.tsx:289-291 | The alert is cleared. |
| BookList.BookListView.constructor | src/book-list/BookList.tsx:310-316 | The view starts ascending by author on page 0 with 5 rows per page, empty. |
| BookList.BookListView.FetchBooks | src/book-list/BookList.tsx:320-351 | Issues one fetch; books change only to delivered data. |
| BookList.BookListView.HandleRequestSort | src/book-list/BookList.tsx:353-360 | The sort state becomes RequestSort of the old one. |
| BookList.BookListView.HandleClick | src/book-list/BookList.tsx:362-373 | The selection becomes Toggle of the old one. |
| BookList.BookListView.HandleChangePage | src/book-list/BookList.tsx:375-377 | Only the page changes. |
| BookList.BookListView.HandleChangeRowsPerPage | src/book-list/BookList.tsx:379-384 | The page size becomes the chosen option and the page returns to 0. |
| BookList.BookListView.AddSelectedToQueue | src/book-list/BookList.tsx:274-277 | The queue button acts on `selected[0]`: a falsy id issues no call and leaves the alert; any other id issues exactly one add-to-queue call and raises the queue alert; the route is untouched. |
| BookListLibrarian.BorrowRoute | src/book-list/BookListLibrarian.tsx:347-349 | The borrow route is `/addLoan?isbn=` followed by the row's ISBN. |
| BookListLibrarian.PagesAscendByAuthor | src/book-list/BookListLibrarian.tsx:222-223 | Every page of the librarian's list is in ascending author order. |
| BookListLibrarian.BookListLibrarianView.constructor | src/book-list/BookListLibrarian.tsx:222-233 | The view starts ascending by author, empty, with the dialog closed and no book to delete. |
| BookListLibrarian.BookListLibrarianView.FetchBooks | src/book-list/BookListLibrarian.tsx:235-266 | Issues one fetch; books change only to delivered data. |
| BookListLibrarian.BookListLibrarianView.HandleClick | src/book-list/BookListLibrarian.tsx:277-288 | The selection becomes Toggle of the old one. |
| BookListLibrarian.BookListLibrarianView.HandleChangePage | src/book-list/BookListLibrarian.tsx:290-292 | Only the page changes. |
| BookListLibrarian.BookListLibrarianView.HandleChangeRowsPerPage | src/book-list/BookListLibrarian.tsx:294-299 | The page size becomes the chosen option and the page returns to 0. |
| BookListLibrarian.BookListLibrarianView.HandleDeleteBook | src/book-list/BookListLibrarian.tsx:327-345 | Issues the delete, and the refetch only after a successful delete. Books are replaced only when both succeed. The dialog always closes. |
| BookListLibrarian.BookListLibrarianView.HandleBorrowBook | src/book-list/BookListLibrarian.tsx:347-349 | Navigates to the borrow route of the ISBN. |
| BookListLibrarian.BookListLibrarianView.HandleOpenDeleteDialog | src/book-list/BookListLibrarian.tsx:351-354 | Remembers the book and opens the dialog. |
| BookListLibrarian.BookListLibrarianView.HandleCloseDeleteDialog | src/book-list/BookListLibrarian.tsx:356-358 | Closes the dialog and keeps the remembered book. |
| BookListLibrarian.BookListLibrarianView.ConfirmDelete | src/book-list/BookListLibrarian.tsx:473-478 | While the dialog is open, deletes the remembered book as `HandleDeleteBook` does: books from `AfterDelete`, calls from `DeleteCalls`, the dialog closed, every other field (remembered id, selection, page, page size, sort state, route) unchanged. |
| BookListAdmin.BookListAdminView.constructor | src/book-list/BookListAdmin.tsx:223-229 | The view starts ascending by author on page 0 with 5 rows per page, empty. |
| BookListAdmin.BookListAdminView.FetchBooks | src/book-list/BookListAdmin.tsx:251-282 | Issues one fetch; books change only to delivered data. |
| BookListAdmin.BookListAdminView.HandleRequestSort | src/book-list/BookListAdmin.tsx:284-291 | The sort state becomes RequestSort of the old one. |
| BookListAdmin.BookListAdminView.HandleClick | src/book-list/BookListAdmin.tsx:293-304 | The selection becomes Toggle of the old one. |
| BookListAdmin.BookListAdminView.HandleChangePage | src/book-list/BookListAdmin.tsx:306-308 | Only the page changes. |
| BookListAdmin.BookListAdminView.HandleChangeRowsPerPage | src/book-list/BookListAdmin.tsx:310-315 | The page size becomes the chosen option and the page returns to 0. |
| ArchiveLoansLibrarian.Cell | src/archive-loans/ArchiveLoansLibrarian.tsx:91-114 | Only the loan id column is numeric. |
| ArchiveLoansLibrarian.ProjectionFallbacks | src/archive-loans/ArchiveLoansLibrarian.tsx:274-282 | Each row field is the archived loan's field, or 0 / '' when that field is missing. |
| ArchiveLoansLibrarian.ArchiveLoansView.constructor | src/archive-loans/ArchiveLoansLibrarian.tsx:187-195 | The view starts ascending by id on page 0 with 5 rows per page, empty. |
| ArchiveLoansLibrarian.ArchiveLoansView.FetchArchiveLoans | src/archive-loans/ArchiveLoansLibrarian.tsx:197-228 | Issues one fetch; loans change only to delivered data. |
| ArchiveLoansLibrarian.ArchiveLoansView.HandleRequestSort | src/archive-loans/ArchiveLoansLibrarian.tsx:230-237 | The sort state becomes RequestSort of the old one. |
| ArchiveLoansLibrarian.ArchiveLoansView.HandleClick | src/archive-loans/ArchiveLoansLibrarian.tsx:239-250 | The selection becomes Toggle of the old one. |
| ArchiveLoansLibrarian.ArchiveLoansView.HandleChangePage | src/archive-loans/ArchiveLoansLibrarian.tsx:252-254 | Only the page changes. |
| ArchiveLoansLibrarian.ArchiveLoansView.HandleChangeRowsPerPage | src/archive-loans/ArchiveLoansLibrarian.tsx:256-261 | The page size becomes the chosen option and the page returns to 0. |
| ReviewListUser.Cell | src/review-list/ReviewListUser.tsx:84-100 | Exactly the id and rating columns are numeric. |
| ReviewListUser.ProjectionFallbacks | src/review-list/ReviewListUser.tsx:245-253 | Each row field is the review's field, or 0 / '' when that field is missing. |
| ReviewListUser.ReviewListView.constructor | src/review-list/ReviewListUser.tsx:164-171 | The view starts ascending by id on page 0 with 5 rows per page, with no expanded row. |
| ReviewListUser.ReviewListView.FetchReviews | src/review-list/ReviewListUser.tsx:195-208 | Issues one fetch; reviews change only to delivered data. |
| ReviewListUser.ReviewListView.HandleRequestSort | src/review-list/ReviewListUser.tsx:210-217 | The sort state becomes RequestSort of the old one. |
| ReviewListUser.ReviewListView.HandleClick | src/review-list/ReviewListUser.tsx:219-221 | The expanded row becomes ToggleExpanded of the old one. |
| ReviewListUser.ReviewListView.HandleChangePage | src/review-list/ReviewListUser.tsx:223-225 | Only the page changes. |
| ReviewListUser.ReviewListView.HandleChangeRowsPerPage | src/review-list/ReviewListUser.tsx:227-232 | The page size becomes the chosen option and the page returns to 0. |
| ReviewListUser.ReviewListView.IsSelected | src/review-list/ReviewListUser.tsx:238 | No review is ever marked selected, because `selected` is never set. |
| UsersListAdmin.WithIds | src/users-list/UsersListAdmin.tsx:233-278 | The drawn users are exactly those with an id. |
| UsersListAdmin.WithIdsConcat | src/users-list/UsersListAdmin.tsx:233-278 | The drawn rows keep the server's order, one row per user with an id: filtering distributes over concatenation, a user with an id is drawn as itself, one without is not drawn. |
| UsersListAdmin.UndrawnUsersLeaveGaps | src/users-list/UsersListAdmin.tsx:173-178 | Any full page (`(page+1)*rowsPerPage <= count`) holding a user without an id draws fewer than a page of rows, yet gets no padding. |
| UsersListAdmin.UsersListAdminView.constructor | src/users-list/UsersListAdmin.tsx:96-103 | The view starts on page 0 with 5 rows per page, empty, with the dialog closed. |
| UsersListAdmin.UsersListAdminView.FetchUsers | src/users-list/UsersListAdmin.tsx:105-136 | Issues one fetch; users change only to delivered data. |
| UsersListAdmin.UsersListAdminView.HandleClick | src/users-list/UsersListAdmin.tsx:138-154 | A missing id changes nothing. Otherwise the selection becomes FilterToggle of the old one and stays at most one id. |
| UsersListAdmin.UsersListAdminView.HandleChangePage | src/users-list/UsersListAdmin.tsx:156-158 | Only the page changes. |
| UsersListAdmin.UsersListAdminView.HandleChangeRowsPerPage | src/users-list/UsersListAdmin.tsx:160-165 | The page size becomes the chosen option and the page returns to 0. |
| UsersListAdmin.UsersListAdminView.HandleDeleteUser | src/users-list/UsersListAdmin.tsx:180-198 | Issues the delete, and the refetch only after a successful delete. Users are replaced only when both succeed. The dialog always closes. |
| UsersListAdmin.UsersListAdminView.HandleOpenDeleteDialog | src/users-list/UsersListAdmin.tsx:200-203 | Remembers the user and opens the dialog. |
| UsersListAdmin.UsersListAdminView.HandleCloseDeleteDialog | src/users-list/UsersListAdmin.tsx:205-207 | Closes the dialog and keeps the remembered user. |
| UsersListAdmin.UsersListAdminView.ConfirmDelete | src/users-list/UsersListAdmin.tsx:319-324 | While the dialog is open, deletes the remembered user as `HandleDeleteUser` does: users from `AfterDelete`, calls from `DeleteCalls`, the dialog closed, the remembered id, selection, page and page size unchanged. |
| UsersListLibrarian.EditRoute | src/users-list/UsersListLibrarian.tsx:156-160 | The edit route is `/editUser/` followed by text that reads back to the user id. |
| UsersListLibrarian.AsJs | src/users-list/UsersListLibrarian.tsx:41 | A `number \| undefined` variable is never `null`, and it is `undefined` exactly when no id is held. |
| UsersListLibrarian.ShowsLoansPanel | src/users-list/UsersListLibrarian.tsx:235 | Corrected test: the loans panel is shown exactly when a user has been chosen. |
| UsersListLibrarian.LoansPanelAlwaysShown | src/users-list/UsersListLibrarian.tsx:235 | As written, the loans panel is shown in every state, including before any user is chosen. |
| UsersListLibrarian.MarksRow | src/users-list/UsersListLibrarian.tsx:118 | Corrected test: a row is marked exactly when it has an id and it is the chosen user's. |
| UsersListLibrarian.RowWithoutIdMarkedSelected | src/users-list/UsersListLibrarian.tsx:118 | As written, a row without an id is marked selected while no user is chosen. |
| UsersListLibrarian.MarksRowAgreesOnIds | src/users-list/UsersListLibrarian.tsx:118 | For rows with an id, the as-written and corrected tests agree. |
| UsersListLibrarian.UsersListLibrarianView.IsSelected | src/users-list/UsersListLibrarian.tsx:118 | The view's row marking, by the corrected test: marked exactly when a user is chosen and the row is that user's. |
| UsersListLibrarian.UsersListLibrarianView.IsSelectedAsWritten | src/users-list/UsersListLibrarian.tsx:118 | `selected === userId` as written: marked exactly when the two optional ids are equal, including both undefined. |
| UsersListLibrarian.UsersListLibrarianView.LoansPanelShown | src/users-list/UsersListLibrarian.tsx:235 | The view's loans panel, by the corrected test: shown exactly when a user is chosen; when hidden, no loans are held. |
| UsersListLibrarian.UsersListLibrarianView.LoansPanelShownAsWritten | src/users-list/UsersListLibrarian.tsx:235 | `selected !== null` as written: the panel is shown in every state. |
| UsersListLibrarian.UsersListLibrarianView.constructor | src/users-list/UsersListLibrarian.tsx:41-49 | The view starts with no user chosen, no loans, page 0 with 5 rows per page, and the dialog closed. |
| UsersListLibrarian.UsersListLibrarianView.FetchUsers | src/users-list/UsersListLibrarian.tsx:52-82 | Issues one fetch; users change only to delivered data. |
| UsersListLibrarian.UsersListLibrarianView.HandleClick | src/users-list/UsersListLibrarian.tsx:84-101 | A user with an id issues one loans call. That user and the loans are taken only when delivered; otherwise nothing changes. |
| UsersListLibrarian.UsersListLibrarianView.HandleChangePage | src/users-list/UsersListLibrarian.tsx:103-105 | Only the page changes. |
| UsersListLibrarian.UsersListLibrarianView.HandleChangeRowsPerPage | src/users-list/UsersListLibrarian.tsx:107-112 | The page size becomes the chosen option and the page returns to 0. |
| UsersListLibrarian.UsersListLibrarianView.HandleDeleteUser | src/users-list/UsersListLibrarian.tsx:127-145 | Issues the delete, and the refetch only after a successful delete. Users are replaced only when both succeed. The dialog always closes. |
| UsersListLibrarian.UsersListLibrarianView.HandleOpenDeleteDialog | src/users-list/UsersListLibrarian.tsx:147-150 | Remembers the user and opens the dialog. |
| UsersListLibrarian.UsersListLibrarianView.HandleCloseDeleteDialog | src/users-list/UsersListLibrarian.tsx:152-154 | Closes the dialog and keeps the remembered user. |
| UsersListLibrarian.UsersListLibrarianView.ConfirmDelete | src/users-list/UsersListLibrarian.tsx:282-287 | While the dialog is open, deletes the remembered user as `HandleDeleteUser` does: users from `AfterDelete`, calls from `DeleteCalls`, the dialog closed, the remembered id, chosen user, its loans, page, page size and route unchanged. |
| UsersListLibrarian.UsersListLibrarianView.HandleEditClick | src/users-list/UsersListLibrarian.tsx:156-160 | Navigates to the user's edit route, only for a user with an id. |

## Left out

- **The engine's sort algorithm.** `Array.prototype.sort` is modelled by an in-place insertion sort. `SortedPermutationUnique` and `AnySortAgrees` show the result is the same for any algorithm, because the index tie-break makes the order strict.
- **String order.** JavaScript compares strings by UTF-16 code units; the model compares Dafny characters (Unicode scalar values). The two orders differ only between characters above U+FFFF and characters from U+E000 to U+FFFF.
- **Mixed cells.** A number compared with a string under `<` is never reached, since every column holds one kind of value. The model orders numbers first there.
- **The page-size control.** `parseInt` of the menu value is modelled as the chosen option, one of 5, 10 and 25; NaN cannot arise.
- **The `!id` guard.** It is modelled as `id != 0`, because ids are integers here and NaN does not occur. Ids come from `x || 0`.
- **HTTP, asynchrony and ordering.** The calls, `async`/`await` and the interleaving of handlers are left out. Each handler runs to completion with its replies given as parameters. React's batching of state updates is not modelled. The log of issued calls stands in for the calls.
- **Role checks and navigation.** `checkUserRole` and its redirects to the login page depend on a cookie and a server call, and are left out. So are the menu bar, translations, the dense-padding switch and row heights.
- **The alert timer.** The three-second timer of the book list's header alert and the snackbar's auto-hide are clock-driven. The model has only the explicit close (`CloseAlert`). The book list header's own alert state is never set, so it is left out.
- **Console output.** Logging of errors and data is left out.
- **BookListLibrarian.BookListLibrarianView: `handleRequestSort` is not modelled.** Its header draws plain cells and never calls it, so the sort state stays ascending by author (an invariant of `Valid`).
- **UsersListLibrarian.UsersListLibrarianView: no control opens the delete dialog.** `HandleOpenDeleteDialog` is modelled as written but nothing calls it.
- **BookListAdmin.BookListAdminView: the toolbar buttons are not modelled.** They have no handlers.
- **Row buttons and the row click.** The borrow and delete buttons of the librarian's book list (src/book-list/BookListLibrarian.tsx:413-424) and the delete button of the administrator's user list (src/users-list/UsersListAdmin.tsx:268-271) do not stop the click from reaching the row, so the row's `handleClick` also runs and toggles the selection. The model treats each button's handler as the whole event; the combined effect is that handler followed by `HandleClick` on the row's id.
- **Selection clearing.** No view clears its selection when the rows are refetched, sorted or paged, and the model does not either.
- **Reviews with a missing id.** Several reviews without an id all project to id 0, so expanding one expands all of them (`CommentShown(0)`). The model keeps this behaviour.

## Findings

| source | as written | input that shows it | evidently intended | confidence | as-written member | corrected member |
|---|---|---|---|---|---|---|
| src/users-list/UsersListLibrarian.tsx:235 | The loans panel is guarded by `selected !== null`, but `selected` is `number \| undefined` and starts `undefined`. | The initial state, before any click: the "Loans of selected user" heading and an empty table are shown. | `selected !== undefined`: show the panel once a user has been chosen. | medium, not executed | UsersListLibrarian.LoansPanelAlwaysShown | UsersListLibrarian.ShowsLoansPanel |
| src/users-list/UsersListLibrarian.tsx:118 | `isSelected(userId)` is `selected === userId`, with `userId` possibly `undefined`. | A user record without `userId`, before any click: its row is drawn as selected. | Mark a row only when it has an id equal to the chosen one. | low, not executed | UsersListLibrarian.RowWithoutIdMarkedSelected | UsersListLibrarian.MarksRow |

The librarian's user-list view (`UsersListLibrarian.UsersListLibrarianView`) marks rows and shows the loans panel by the corrected tests (`IsSelected`, `LoansPanelShown`); the tests as written sit beside them as `IsSelectedAsWritten` and `LoansPanelShownAsWritten`, so the view's initial state differs from the program's exactly by these two findings.
