/**
 * The librarian's book list: every book, one page at a time, always ascending by
 * author (its header has no sort controls), with a lend button and a delete
 * button behind a confirmation dialog on each row.
 */
module BookListLibrarian {
  import opened Optional
  import opened Values
  import opened Comparator
  import opened Pager
  import opened Selection
  import opened Api
  import opened Dtos
  import opened ListView
  import opened BookRows

  const BorrowPrefix := "/addLoan?isbn="

  /** `/addLoan?isbn=${isbn}`: the new-loan page, with the row's ISBN after the prefix. */
  function BorrowRoute(isbn: string): (route: string)
    ensures |route| == |BorrowPrefix| + |isbn|
    ensures route[..|BorrowPrefix|] == BorrowPrefix && route[|BorrowPrefix|..] == isbn
  {
    BorrowPrefix + isbn
  }

  /** The `BookList` component's state, in the librarian's variant. */
  class BookListLibrarianView {
    var order: Order
    var orderBy: Field
    var selected: seq<int>
    var page: nat
    var rowsPerPage: nat
    var books: seq<BookDto>
    var deleteDialogOpen: bool
    var deletingBookId: Option<int>
    var requests: seq<Request>
    var route: Option<string>

    /**
     * The sort state never leaves ascending by author, at most one book is
     * selected, the page size is one TablePagination offers, and an open dialog
     * always knows which book it deletes.
     */
    ghost predicate Valid()
      reads this
    {
      && order == Asc && orderBy == Author
      && |selected| <= 1 && RowsPerPageOption(rowsPerPage)
      && (deleteDialogOpen ==> deletingBookId.Some?)
    }

    /** The initial state: ascending by author, first page of 5, no dialog. */
    constructor()
      ensures order == Asc && orderBy == Author && selected == [] && page == 0 && rowsPerPage == 5
      ensures books == [] && !deleteDialogOpen && deletingBookId == None
      ensures requests == [] && route == None
      ensures Valid()
    {
      order := Asc;
      orderBy := Author;
      selected := [];
      page := 0;
      rowsPerPage := 5;
      books := [];
      deleteDialogOpen := false;
      deletingBookId := None;
      requests := [];
      route := None;
    }

    /** `fetchBooks`, run once on mount. */
    method FetchBooks(reply: Reply<seq<BookDto>>)
      requires Valid()
      modifies this
      ensures Valid()
      ensures books == Refetched(old(books), reply) && requests == old(requests) + [GetBooks]
      ensures selected == old(selected) && page == old(page) && rowsPerPage == old(rowsPerPage)
      ensures deleteDialogOpen == old(deleteDialogOpen) && deletingBookId == old(deletingBookId)
      ensures route == old(route)
    {
      requests := requests + [GetBooks];
      books := Refetched(books, reply);
    }

    /** `handleClick` */
    method HandleClick(id: int)
      requires Valid()
      modifies this
      ensures Valid()
      ensures selected == Toggle(old(selected), id)
      ensures page == old(page) && rowsPerPage == old(rowsPerPage) && books == old(books)
      ensures deleteDialogOpen == old(deleteDialogOpen) && deletingBookId == old(deletingBookId)
      ensures requests == old(requests) && route == old(route)
    {
      var selectedIndex := IndexOf(selected, id);
      var newSelected: seq<int> := [];
      if selectedIndex == -1 {
        newSelected := [id];
      } else {
        newSelected := [];
      }
      selected := newSelected;
    }

    /** `handleChangePage` */
    method HandleChangePage(newPage: nat)
      requires Valid()
      modifies this
      ensures Valid()
      ensures page == newPage
      ensures selected == old(selected) && rowsPerPage == old(rowsPerPage) && books == old(books)
      ensures deleteDialogOpen == old(deleteDialogOpen) && deletingBookId == old(deletingBookId)
      ensures requests == old(requests) && route == old(route)
    {
      page := newPage;
    }

    /** `handleChangeRowsPerPage`: the new page size, back to the first page. */
    method HandleChangeRowsPerPage(newRowsPerPage: int)
      requires Valid() && RowsPerPageOption(newRowsPerPage)
      modifies this
      ensures Valid()
      ensures rowsPerPage == newRowsPerPage && page == 0
      ensures selected == old(selected) && books == old(books)
      ensures deleteDialogOpen == old(deleteDialogOpen) && deletingBookId == old(deletingBookId)
      ensures requests == old(requests) && route == old(route)
    {
      rowsPerPage := newRowsPerPage;
      page := 0;
    }

    /** `isSelected(id)` */
    function IsSelected(id: int): bool
      reads this
    {
      Selection.IsSelected(selected, id)
    }

    /** `emptyRows` */
    function EmptyRows(): nat
      reads this
    {
      Pager.EmptyRows(page, rowsPerPage, |books|)
    }

    /** `visibleRows` */
    function VisibleRows(): seq<Row>
      reads this
    {
      Visible(books, order, orderBy, page, rowsPerPage)
    }

    /**
     * `handleDeleteBook`: the delete, the refetch only after a successful delete,
     * the books replaced only when both succeed; the dialog closes whatever happens.
     */
    method HandleDeleteBook(bookId: int, deleteReply: Reply<()>, refetchReply: Reply<seq<BookDto>>)
      requires Valid()
      modifies this
      ensures Valid()
      ensures books == AfterDelete(old(books), deleteReply, refetchReply)
      ensures requests == old(requests) + DeleteCalls(DeleteBook(bookId), GetBooks, deleteReply)
      ensures !deleteDialogOpen && deletingBookId == old(deletingBookId)
      ensures selected == old(selected) && page == old(page) && rowsPerPage == old(rowsPerPage)
      ensures route == old(route)
    {
      requests := requests + [DeleteBook(bookId)];
      if Succeeded(deleteReply) {
        requests := requests + [GetBooks];
        books := Refetched(books, refetchReply);
      }
      deleteDialogOpen := false;
    }

    /** `handleBorrowBook`: navigates to the new-loan page for the row's ISBN. */
    method HandleBorrowBook(isbn: string)
      requires Valid()
      modifies this
      ensures Valid()
      ensures route == Some(BorrowRoute(isbn))
      ensures selected == old(selected) && page == old(page) && rowsPerPage == old(rowsPerPage)
      ensures books == old(books) && requests == old(requests)
      ensures deleteDialogOpen == old(deleteDialogOpen) && deletingBookId == old(deletingBookId)
    {
      route := Some(BorrowRoute(isbn));
    }

    /** `handleOpenDeleteDialog`: remembers the row's book and opens the dialog. */
    method HandleOpenDeleteDialog(bookId: int)
      requires Valid()
      modifies this
      ensures Valid()
      ensures deleteDialogOpen && deletingBookId == Some(bookId)
      ensures selected == old(selected) && page == old(page) && rowsPerPage == old(rowsPerPage)
      ensures books == old(books) && requests == old(requests) && route == old(route)
    {
      deletingBookId := Some(bookId);
      deleteDialogOpen := true;
    }

    /** `handleCloseDeleteDialog`: closes the dialog; the remembered book stays. */
    method HandleCloseDeleteDialog()
      requires Valid()
      modifies this
      ensures Valid()
      ensures !deleteDialogOpen && deletingBookId == old(deletingBookId)
      ensures selected == old(selected) && page == old(page) && rowsPerPage == old(rowsPerPage)
      ensures books == old(books) && requests == old(requests) && route == old(route)
    {
      deleteDialogOpen := false;
    }

    /** The dialog's Delete button: `handleDeleteBook(deletingBookId!)`, only while the dialog is open. */
    method ConfirmDelete(deleteReply: Reply<()>, refetchReply: Reply<seq<BookDto>>)
      requires Valid() && deleteDialogOpen
      modifies this
      ensures Valid()
      ensures books == AfterDelete(old(books), deleteReply, refetchReply)
      ensures requests == old(requests) + DeleteCalls(DeleteBook(old(deletingBookId).value), GetBooks, deleteReply)
      ensures !deleteDialogOpen && deletingBookId == old(deletingBookId)
      ensures selected == old(selected) && page == old(page) && rowsPerPage == old(rowsPerPage)
      ensures order == old(order) && orderBy == old(orderBy) && route == old(route)
    {
      HandleDeleteBook(deletingBookId.value, deleteReply, refetchReply);
    }
  }

  /**
   * Every page of the librarian's list is in ascending author order: no author
   * on the page precedes one shown above it.
   */
  lemma PagesAscendByAuthor(books: seq<BookDto>, page: nat, rowsPerPage: nat)
    ensures var v := Visible(books, Asc, Author, page, rowsPerPage);
            forall i, j :: 0 <= i < j < |v| ==> !StrLess(v[j].author, v[i].author)
  {
    var v := Visible(books, Asc, Author, page, rowsPerPage);
    VisibleProjected(books, ToRow, Asc, KeyOf(Author), page, rowsPerPage);
    forall i, j | 0 <= i < j < |v|
      ensures !StrLess(v[j].author, v[i].author)
    {
      assert !Less(KeyOf(Author)(v[j]), KeyOf(Author)(v[i]));
    }
  }
}
