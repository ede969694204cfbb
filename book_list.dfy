/**
 * The reader's book list: every book, sortable by any column, one page at a
 * time, with one selectable book that the toolbar can queue for or show the
 * reviews of.
 */
module BookList {
  import opened Optional
  import opened Comparator
  import opened Pager
  import opened Selection
  import opened SortHeader
  import opened Api
  import opened Dtos
  import opened BookRows

  const AddToQueueMessages := ActionMessages(
    "Book added to queue successfully", "Failed to add book to queue", "Failed to add book to queue")

  const ReviewsPrefix := "/getReviews?bookId="

  /** `/getReviews?bookId=${bookId}`: the reviews page of the book, whose id reads back from the route. */
  function ReviewsRoute(bookId: int): (route: string)
    ensures |route| > |ReviewsPrefix| && route[..|ReviewsPrefix|] == ReviewsPrefix
    ensures ParseDecimal(route[|ReviewsPrefix|..]) == Some(bookId)
  {
    var route := ReviewsPrefix + Decimal(bookId);
    assert route[|ReviewsPrefix|..] == Decimal(bookId);
    DecimalRoundTrip(bookId);
    route
  }

  /** `EnhancedTableToolbar`: the reviews and add-to-queue buttons and the alert they raise. */
  class Toolbar {
    var alert: Option<Alert>
    var requests: seq<Request>
    var route: Option<string>

    constructor()
      ensures alert == None && requests == [] && route == None
    {
      alert := None;
      requests := [];
      route := None;
    }

    /** `handleAddToQueue`: nothing for a falsy id, otherwise one call and its alert. */
    method HandleAddToQueue(selectedBookId: int, reply: Reply<()>)
      modifies this
      ensures !Truthy(selectedBookId) ==> alert == old(alert) && requests == old(requests)
      ensures Truthy(selectedBookId) ==>
                && requests == old(requests) + [AddToQueue(selectedBookId)]
                && alert == Some(ActionAlert(AddToQueueMessages, reply))
      ensures route == old(route)
    {
      if !Truthy(selectedBookId) {
        return;
      }
      requests := requests + [AddToQueue(selectedBookId)];
      alert := Some(ActionAlert(AddToQueueMessages, reply));
    }

    /** `handleGetReviews`: navigates to the book's reviews. */
    method HandleGetReviews(bookId: int)
      modifies this
      ensures route == Some(ReviewsRoute(bookId))
      ensures alert == old(alert) && requests == old(requests)
    {
      route := Some(ReviewsRoute(bookId));
    }

    /** The snackbar's `onClose`, and the three-second timer: `setAlert(null)`. */
    method CloseAlert()
      modifies this
      ensures alert == None && requests == old(requests) && route == old(route)
    {
      alert := None;
    }
  }

  /** The `BookList` component's state. */
  class BookListView {
    var order: Order
    var orderBy: Field
    var selected: seq<int>
    var page: nat
    var rowsPerPage: nat
    var books: seq<BookDto>
    var requests: seq<Request>

    /** At most one book is selected, and the page size is one TablePagination offers. */
    ghost predicate Valid()
      reads this
    {
      |selected| <= 1 && RowsPerPageOption(rowsPerPage)
    }

    /** The initial state: ascending by author, first page of 5, nothing selected or loaded. */
    constructor()
      ensures order == Asc && orderBy == Author && selected == [] && page == 0 && rowsPerPage == 5
      ensures books == [] && requests == []
      ensures Valid()
    {
      order := Asc;
      orderBy := Author;
      selected := [];
      page := 0;
      rowsPerPage := 5;
      books := [];
      requests := [];
    }

    /** `fetchBooks`, run once on mount. */
    method FetchBooks(reply: Reply<seq<BookDto>>)
      requires Valid()
      modifies this
      ensures Valid()
      ensures books == Refetched(old(books), reply) && requests == old(requests) + [GetBooks]
      ensures order == old(order) && orderBy == old(orderBy) && selected == old(selected)
      ensures page == old(page) && rowsPerPage == old(rowsPerPage)
    {
      requests := requests + [GetBooks];
      books := Refetched(books, reply);
    }

    /** `handleRequestSort` */
    method HandleRequestSort(property: Field)
      requires Valid()
      modifies this
      ensures Valid()
      ensures SortState(order, orderBy) == RequestSort(old(SortState(order, orderBy)), property)
      ensures selected == old(selected) && page == old(page) && rowsPerPage == old(rowsPerPage)
      ensures books == old(books) && requests == old(requests)
    {
      var isAsc := orderBy == property && order == Asc;
      order := if isAsc then Desc else Asc;
      orderBy := property;
    }

    /** `handleClick` */
    method HandleClick(id: int)
      requires Valid()
      modifies this
      ensures Valid()
      ensures selected == Toggle(old(selected), id)
      ensures order == old(order) && orderBy == old(orderBy) && page == old(page) && rowsPerPage == old(rowsPerPage)
      ensures books == old(books) && requests == old(requests)
    {
      var selectedIndex := IndexOf(selected, id);
      var newSelected: seq<int> := [];
      if selectedIndex == -1 {
        newSelected := [id];
      } else {
        newSelected := [];
      }
      selected := newSelected;
    }

    /** `handleChangePage` */
    method HandleChangePage(newPage: nat)
      requires Valid()
      modifies this
      ensures Valid()
      ensures page == newPage
      ensures order == old(order) && orderBy == old(orderBy) && selected == old(selected) && rowsPerPage == old(rowsPerPage)
      ensures books == old(books) && requests == old(requests)
    {
      page := newPage;
    }

    /** `handleChangeRowsPerPage`: the new page size, back to the first page. */
    method HandleChangeRowsPerPage(newRowsPerPage: int)
      requires Valid() && RowsPerPageOption(newRowsPerPage)
      modifies this
      ensures Valid()
      ensures rowsPerPage == newRowsPerPage && page == 0
      ensures order == old(order) && orderBy == old(orderBy) && selected == old(selected)
      ensures books == old(books) && requests == old(requests)
    {
      rowsPerPage := newRowsPerPage;
      page := 0;
    }

    /** `isSelected(id)` */
    function IsSelected(id: int): bool
      reads this
    {
      Selection.IsSelected(selected, id)
    }

    /** `emptyRows` */
    function EmptyRows(): nat
      reads this
    {
      Pager.EmptyRows(page, rowsPerPage, |books|)
    }

    /** `visibleRows` */
    function VisibleRows(): seq<Row>
      reads this
    {
      Visible(books, order, orderBy, page, rowsPerPage)
    }

    /** The toolbar's add-to-queue button, shown while a book is selected, acting on `selected[0]`. */
    method AddSelectedToQueue(toolbar: Toolbar, reply: Reply<()>)
      requires Valid() && |selected| > 0
      modifies toolbar
      ensures Truthy(selected[0]) ==> toolbar.requests == old(toolbar.requests) + [AddToQueue(selected[0])]
      ensures Truthy(selected[0]) ==> toolbar.alert == Some(ActionAlert(AddToQueueMessages, reply))
      ensures !Truthy(selected[0]) ==> toolbar.requests == old(toolbar.requests) && toolbar.alert == old(toolbar.alert)
      ensures toolbar.route == old(toolbar.route)
    {
      toolbar.HandleAddToQueue(selected[0], reply);
    }
  }

  /**
   * Queueing for a book raises a success alert exactly when the call succeeds; a
   * refused call's alert carries the status code; a call that raised gets the
   * bare failure text.
   */
  lemma AddToQueueAlertChoice(reply: Reply<()>)
    ensures ActionAlert(AddToQueueMessages, reply).severity == Success <==> Succeeded(reply)
    ensures reply.Replied? && !reply.success ==>
              StatusOf(ActionAlert(AddToQueueMessages, reply).message, "Failed to add book to queue") == Some(reply.statusCode)
    ensures reply.Threw? ==> ActionAlert(AddToQueueMessages, reply) == Alert("Failed to add book to queue", Error)
  {
  }
}
