/**
 * The librarian's archive of returned loans: every archived loan, sortable by
 * any column, one page at a time, with one selectable loan.
 */
module ArchiveLoansLibrarian {
  import opened Values
  import opened Comparator
  import opened Pager
  import opened Selection
  import opened SortHeader
  import opened Api
  import opened Dtos
  import opened ListView

  /** The columns of the table: `keyof Data`. */
  datatype Field = Id | UserName | Title | Isbn | LoanDate | DueDate | ReturnDate

  /** `Data`: one row of the table. */
  datatype Row = Row(id: int, userName: string, title: string, isbn: string, loanDate: string,
                     dueDate: string, returnDate: string)

  /** `row[orderBy]`: the loan id column holds numbers, every other column text. */
  function Cell(r: Row, f: Field): (v: Value)
    ensures v.Num? <==> f == Id
  {
    match f
    case Id => Num(r.id)
    case UserName => Str(r.userName)
    case Title => Str(r.title)
    case Isbn => Str(r.isbn)
    case LoanDate => Str(r.loanDate)
    case DueDate => Str(r.dueDate)
    case ReturnDate => Str(r.returnDate)
  }

  function KeyOf(f: Field): Row -> Value
  {
    r => Cell(r, f)
  }

  /** The projection of one archived loan, with `|| 0` and `|| ''` for missing fields. */
  function ToRow(loan: ArchiveLoanDto): Row
  {
    Row(OrZero(loan.loanArchiveId), UserNameOf(loan.user), TitleOf(loan.book), IsbnOf(loan.book),
        OrEmpty(loan.loanDate), OrEmpty(loan.dueDate), OrEmpty(loan.returnDate))
  }

  /** `archiveLoans.map(...)`: one row per archived loan, in the same order. */
  function Rows(loans: seq<ArchiveLoanDto>): seq<Row>
  {
    Project(loans, ToRow)
  }

  /** Each row carries its archived loan's fields, or 0 and '' where the loan lacks them. */
  lemma ProjectionFallbacks(loans: seq<ArchiveLoanDto>, k: int)
    requires 0 <= k < |loans|
    ensures var r, l := Rows(loans)[k], loans[k];
            && (l.loanArchiveId.Some? ==> r.id == l.loanArchiveId.value) && (l.loanArchiveId.None? ==> r.id == 0)
            && (l.user.Some? && l.user.value.userName.Some? ==> r.userName == l.user.value.userName.value)
            && (l.user.None? || l.user.value.userName.None? ==> r.userName == "")
            && (l.book.Some? && l.book.value.title.Some? ==> r.title == l.book.value.title.value)
            && (l.book.None? || l.book.value.title.None? ==> r.title == "")
            && (l.book.Some? && l.book.value.isbn.Some? ==> r.isbn == l.book.value.isbn.value)
            && (l.book.None? || l.book.value.isbn.None? ==> r.isbn == "")
            && (l.loanDate.Some? ==> r.loanDate == l.loanDate.value) && (l.loanDate.None? ==> r.loanDate == "")
            && (l.dueDate.Some? ==> r.dueDate == l.dueDate.value) && (l.dueDate.None? ==> r.dueDate == "")
            && (l.returnDate.Some? ==> r.returnDate == l.returnDate.value) && (l.returnDate.None? ==> r.returnDate == "")
  {
  }

  /** `visibleRows` for the given state. */
  function Visible(loans: seq<ArchiveLoanDto>, order: Order, orderBy: Field, page: nat, rowsPerPage: nat): seq<Row>
  {
    VisibleRows(Rows(loans), order, KeyOf(orderBy), page, rowsPerPage)
  }

  /** The `ArchiveLoansList` component's state. */
  class ArchiveLoansView {
    var order: Order
    var orderBy: Field
    var selected: seq<int>
    var page: nat
    var rowsPerPage: nat
    var archiveLoans: seq<ArchiveLoanDto>
    var requests: seq<Request>

    /** At most one loan is selected, and the page size is one TablePagination offers. */
    ghost predicate Valid()
      reads this
    {
      |selected| <= 1 && RowsPerPageOption(rowsPerPage)
    }

    /** The initial state: ascending by loan id, first page of 5, nothing selected or loaded. */
    constructor()
      ensures order == Asc && orderBy == Id && selected == [] && page == 0 && rowsPerPage == 5
      ensures archiveLoans == [] && requests == []
      ensures Valid()
    {
      order := Asc;
      orderBy := Id;
      selected := [];
      page := 0;
      rowsPerPage := 5;
      archiveLoans := [];
      requests := [];
    }

    /** `fetchArchiveLoans`, run once on mount. */
    method FetchArchiveLoans(reply: Reply<seq<ArchiveLoanDto>>)
      requires Valid()
      modifies this
      ensures Valid()
      ensures archiveLoans == Refetched(old(archiveLoans), reply) && requests == old(requests) + [GetArchiveLoans]
      ensures order == old(order) && orderBy == old(orderBy) && selected == old(selected)
      ensures page == old(page) && rowsPerPage == old(rowsPerPage)
    {
      requests := requests + [GetArchiveLoans];
      archiveLoans := Refetched(archiveLoans, reply);
    }

    /** `handleRequestSort` */
    method HandleRequestSort(property: Field)
      requires Valid()
      modifies this
      ensures Valid()
      ensures SortState(order, orderBy) == RequestSort(old(SortState(order, orderBy)), property)
      ensures selected == old(selected) && page == old(page) && rowsPerPage == old(rowsPerPage)
      ensures archiveLoans == old(archiveLoans) && requests == old(requests)
    {
      var isAsc := orderBy == property && order == Asc;
      order := if isAsc then Desc else Asc;
      orderBy := property;
    }

    /** `handleClick` */
    method HandleClick(id: int)
      requires Valid()
      modifies this
      ensures Valid()
      ensures selected == Toggle(old(selected), id)
      ensures order == old(order) && orderBy == old(orderBy) && page == old(page) && rowsPerPage == old(rowsPerPage)
      ensures archiveLoans == old(archiveLoans) && requests == old(requests)
    {
      var selectedIndex := IndexOf(selected, id);
      var newSelected: seq<int> := [];
      if selectedIndex == -1 {
        newSelected := [id];
      } else {
        newSelected := [];
      }
      selected := newSelected;
    }

    /** `handleChangePage` */
    method HandleChangePage(newPage: nat)
      requires Valid()
      modifies this
      ensures Valid()
      ensures page == newPage
      ensures order == old(order) && orderBy == old(orderBy) && selected == old(selected) && rowsPerPage == old(rowsPerPage)
      ensures archiveLoans == old(archiveLoans) && requests == old(requests)
    {
      page := newPage;
    }

    /** `handleChangeRowsPerPage`: the new page size, back to the first page. */
    method HandleChangeRowsPerPage(newRowsPerPage: int)
      requires Valid() && RowsPerPageOption(newRowsPerPage)
      modifies this
      ensures Valid()
      ensures rowsPerPage == newRowsPerPage && page == 0
      ensures order == old(order) && orderBy == old(orderBy) && selected == old(selected)
      ensures archiveLoans == old(archiveLoans) && requests == old(requests)
    {
      rowsPerPage := newRowsPerPage;
      page := 0;
    }

    /** `isSelected(id)` */
    function IsSelected(id: int): bool
      reads this
    {
      Selection.IsSelected(selected, id)
    }

    /** `emptyRows` */
    function EmptyRows(): nat
      reads this
    {
      Pager.EmptyRows(page, rowsPerPage, |archiveLoans|)
    }

    /** `visibleRows` */
    function VisibleRows(): seq<Row>
      reads this
    {
      Visible(archiveLoans, order, orderBy, page, rowsPerPage)
    }
  }
}
