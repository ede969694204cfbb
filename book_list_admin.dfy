/**
 * The administrator's book list: every book, sortable by any column, one page
 * at a time, with one selectable book; its toolbar buttons have no handlers.
 */
module BookListAdmin {
  import opened Comparator
  import opened Pager
  import opened Selection
  import opened SortHeader
  import opened Api
  import opened Dtos
  import opened BookRows

  /** The `BookList` component's state, in the administrator's variant. */
  class BookListAdminView {
    var order: Order
    var orderBy: Field
    var selected: seq<int>
    var page: nat
    var rowsPerPage: nat
    var books: seq<BookDto>
    var requests: seq<Request>

    /** At most one book is selected, and the page size is one TablePagination offers. */
    ghost predicate Valid()
      reads this
    {
      |selected| <= 1 && RowsPerPageOption(rowsPerPage)
    }

    /** The initial state: ascending by author, first page of 5, nothing selected or loaded. */
    constructor()
      ensures order == Asc && orderBy == Author && selected == [] && page == 0 && rowsPerPage == 5
      ensures books == [] && requests == []
      ensures Valid()
    {
      order := Asc;
      orderBy := Author;
      selected := [];
      page := 0;
      rowsPerPage := 5;
      books := [];
      requests := [];
    }

    /** `fetchBooks`, run once on mount. */
    method FetchBooks(reply: Reply<seq<BookDto>>)
      requires Valid()
      modifies this
      ensures Valid()
      ensures books == Refetched(old(books), reply) && requests == old(requests) + [GetBooks]
      ensures order == old(order) && orderBy == old(orderBy) && selected == old(selected)
      ensures page == old(page) && rowsPerPage == old(rowsPerPage)
    {
      requests := requests + [GetBooks];
      books := Refetched(books, reply);
    }

    /** `handleRequestSort` */
    method HandleRequestSort(property: Field)
      requires Valid()
      modifies this
      ensures Valid()
      ensures SortState(order, orderBy) == RequestSort(old(SortState(order, orderBy)), property)
      ensures selected == old(selected) && page == old(page) && rowsPerPage == old(rowsPerPage)
      ensures books == old(books) && requests == old(requests)
    {
      var isAsc := orderBy == property && order == Asc;
      order := if isAsc then Desc else Asc;
      orderBy := property;
    }

    /** `handleClick` */
    method HandleClick(id: int)
      requires Valid()
      modifies this
      ensures Valid()
      ensures selected == Toggle(old(selected), id)
      ensures order == old(order) && orderBy == old(orderBy) && page == old(page) && rowsPerPage == old(rowsPerPage)
      ensures books == old(books) && requests == old(requests)
    {
      var selectedIndex := IndexOf(selected, id);
      var newSelected: seq<int> := [];
      if selectedIndex == -1 {
        newSelected := [id];
      } else {
        newSelected := [];
      }
      selected := newSelected;
    }

    /** `handleChangePage` */
    method HandleChangePage(newPage: nat)
      requires Valid()
      modifies this
      ensures Valid()
      ensures page == newPage
      ensures order == old(order) && orderBy == old(orderBy) && selected == old(selected) && rowsPerPage == old(rowsPerPage)
      ensures books == old(books) && requests == old(requests)
    {
      page := newPage;
    }

    /** `handleChangeRowsPerPage`: the new page size, back to the first page. */
    method HandleChangeRowsPerPage(newRowsPerPage: int)
      requires Valid() && RowsPerPageOption(newRowsPerPage)
      modifies this
      ensures Valid()
      ensures rowsPerPage == newRowsPerPage && page == 0
      ensures order == old(order) && orderBy == old(orderBy) && selected == old(selected)
      ensures books == old(books) && requests == old(requests)
    {
      rowsPerPage := newRowsPerPage;
      page := 0;
    }

    /** `isSelected(id)` */
    function IsSelected(id: int): bool
      reads this
    {
      Selection.IsSelected(selected, id)
    }

    /** `emptyRows` */
    function EmptyRows(): nat
      reads this
    {
      Pager.EmptyRows(page, rowsPerPage, |books|)
    }

    /** `visibleRows` */
    function VisibleRows(): seq<Row>
      reads this
    {
      Visible(books, order, orderBy, page, rowsPerPage)
    }
  }
}
