/**
 * The librarian's loans list: every current loan, sortable by any column, one
 * page at a time, with one selectable loan that the toolbar can extend or mark
 * as returned.
 */
module LoansList {
  import opened Optional
  import opened Values
  import opened Comparator
  import opened Pager
  import opened Selection
  import opened SortHeader
  import opened Api
  import opened Dtos
  import opened ListView

  /** The columns of the table: `keyof Data`. */
  datatype Field = Id | UserName | Title | Isbn | LoanDate | DueDate

  /** `Data`: one row of the table. */
  datatype Row = Row(id: int, userName: string, title: string, isbn: string, loanDate: string, dueDate: string)

  /** `row[orderBy]`: the loan id column holds numbers, every other column text. */
  function Cell(r: Row, f: Field): (v: Value)
    ensures v.Num? <==> f == Id
  {
    match f
    case Id => Num(r.id)
    case UserName => Str(r.userName)
    case Title => Str(r.title)
    case Isbn => Str(r.isbn)
    case LoanDate => Str(r.loanDate)
    case DueDate => Str(r.dueDate)
  }

  function KeyOf(f: Field): Row -> Value
  {
    r => Cell(r, f)
  }

  /** The projection of one loan, with `|| 0` and `|| ''` for missing fields. */
  function ToRow(loan: LoanDto): Row
  {
    Row(OrZero(loan.loanId), UserNameOf(loan.user), TitleOf(loan.book), IsbnOf(loan.book),
        OrEmpty(loan.loanDate), OrEmpty(loan.dueDate))
  }

  /** `loans.map(...)`: one row per loan, in the same order. */
  function Rows(loans: seq<LoanDto>): seq<Row>
  {
    Project(loans, ToRow)
  }

  /** Each row carries its loan's fields, or 0 and '' where the loan lacks them. */
  lemma ProjectionFallbacks(loans: seq<LoanDto>, k: int)
    requires 0 <= k < |loans|
    ensures var r, l := Rows(loans)[k], loans[k];
            && (l.loanId.Some? ==> r.id == l.loanId.value) && (l.loanId.None? ==> r.id == 0)
            && (l.user.Some? && l.user.value.userName.Some? ==> r.userName == l.user.value.userName.value)
            && (l.user.None? || l.user.value.userName.None? ==> r.userName == "")
            && (l.book.Some? && l.book.value.title.Some? ==> r.title == l.book.value.title.value)
            && (l.book.None? || l.book.value.title.None? ==> r.title == "")
            && (l.book.Some? && l.book.value.isbn.Some? ==> r.isbn == l.book.value.isbn.value)
            && (l.book.None? || l.book.value.isbn.None? ==> r.isbn == "")
            && (l.loanDate.Some? ==> r.loanDate == l.loanDate.value) && (l.loanDate.None? ==> r.loanDate == "")
            && (l.dueDate.Some? ==> r.dueDate == l.dueDate.value) && (l.dueDate.None? ==> r.dueDate == "")
  {
  }

  /** `visibleRows` for the given state. */
  function Visible(loans: seq<LoanDto>, order: Order, orderBy: Field, page: nat, rowsPerPage: nat): seq<Row>
  {
    VisibleRows(Rows(loans), order, KeyOf(orderBy), page, rowsPerPage)
  }

  const ExtendMessages := ActionMessages(
    "Loan due date extended successfully", "Failed to extend loan due date", "Error extending loan due date")

  const ReturnMessages := ActionMessages(
    "Loan has been returned successfully", "Failed to return loan", "Error returning loan")

  /** `EnhancedTableToolbar`: the extend and return buttons and the alert they raise. */
  class Toolbar {
    var alert: Option<Alert>
    var requests: seq<Request>

    constructor()
      ensures alert == None && requests == []
    {
      alert := None;
      requests := [];
    }

    /** `handleExtendLoan`: nothing for a falsy id, otherwise one call and its alert. */
    method HandleExtendLoan(selectedLoanId: int, reply: Reply<()>)
      modifies this
      ensures !Truthy(selectedLoanId) ==> alert == old(alert) && requests == old(requests)
      ensures Truthy(selectedLoanId) ==>
                && requests == old(requests) + [ExtendLoan(selectedLoanId)]
                && alert == Some(ActionAlert(ExtendMessages, reply))
    {
      if !Truthy(selectedLoanId) {
        return;
      }
      requests := requests + [ExtendLoan(selectedLoanId)];
      alert := Some(ActionAlert(ExtendMessages, reply));
    }

    /** `handleReturnLoan`: nothing for a falsy id, otherwise one call and its alert. */
    method HandleReturnLoan(selectedLoanId: int, reply: Reply<()>)
      modifies this
      ensures !Truthy(selectedLoanId) ==> alert == old(alert) && requests == old(requests)
      ensures Truthy(selectedLoanId) ==>
                && requests == old(requests) + [ReturnLoan(selectedLoanId)]
                && alert == Some(ActionAlert(ReturnMessages, reply))
    {
      if !Truthy(selectedLoanId) {
        return;
      }
      requests := requests + [ReturnLoan(selectedLoanId)];
      alert := Some(ActionAlert(ReturnMessages, reply));
    }

    /** The snackbar's `onClose`: `setAlert(null)`. */
    method CloseAlert()
      modifies this
      ensures alert == None && requests == old(requests)
    {
      alert := None;
    }
  }

  /** The `LoansList` component's state. */
  class LoansListView {
    var order: Order
    var orderBy: Field
    var selected: seq<int>
    var page: nat
    var rowsPerPage: nat
    var loans: seq<LoanDto>
    var requests: seq<Request>

    /** At most one loan is selected, and the page size is one TablePagination offers. */
    ghost predicate Valid()
      reads this
    {
      |selected| <= 1 && RowsPerPageOption(rowsPerPage)
    }

    /** The initial state: ascending by loan id, first page of 5, nothing selected or loaded. */
    constructor()
      ensures order == Asc && orderBy == Id && selected == [] && page == 0 && rowsPerPage == 5
      ensures loans == [] && requests == []
      ensures Valid()
    {
      order := Asc;
      orderBy := Id;
      selected := [];
      page := 0;
      rowsPerPage := 5;
      loans := [];
      requests := [];
    }

    /** `fetchLoans`, run once on mount. */
    method FetchLoans(reply: Reply<seq<LoanDto>>)
      requires Valid()
      modifies this
      ensures Valid()
      ensures loans == Refetched(old(loans), reply) && requests == old(requests) + [GetLoans]
      ensures order == old(order) && orderBy == old(orderBy) && selected == old(selected)
      ensures page == old(page) && rowsPerPage == old(rowsPerPage)
    {
      requests := requests + [GetLoans];
      loans := Refetched(loans, reply);
    }

    /** `handleRequestSort` */
    method HandleRequestSort(property: Field)
      requires Valid()
      modifies this
      ensures Valid()
      ensures SortState(order, orderBy) == RequestSort(old(SortState(order, orderBy)), property)
      ensures selected == old(selected) && page == old(page) && rowsPerPage == old(rowsPerPage)
      ensures loans == old(loans) && requests == old(requests)
    {
      var isAsc := orderBy == property && order == Asc;
      order := if isAsc then Desc else Asc;
      orderBy := property;
    }

    /** `handleClick` */
    method HandleClick(id: int)
      requires Valid()
      modifies this
      ensures Valid()
      ensures selected == Toggle(old(selected), id)
      ensures order == old(order) && orderBy == old(orderBy) && page == old(page) && rowsPerPage == old(rowsPerPage)
      ensures loans == old(loans) && requests == old(requests)
    {
      var selectedIndex := IndexOf(selected, id);
      var newSelected: seq<int> := [];
      if selectedIndex == -1 {
        newSelected := [id];
      } else {
        newSelected := [];
      }
      selected := newSelected;
    }

    /** `handleChangePage` */
    method HandleChangePage(newPage: nat)
      requires Valid()
      modifies this
      ensures Valid()
      ensures page == newPage
      ensures order == old(order) && orderBy == old(orderBy) && selected == old(selected) && rowsPerPage == old(rowsPerPage)
      ensures loans == old(loans) && requests == old(requests)
    {
      page := newPage;
    }

    /** `handleChangeRowsPerPage`: the new page size, back to the first page. */
    method HandleChangeRowsPerPage(newRowsPerPage: int)
      requires Valid() && RowsPerPageOption(newRowsPerPage)
      modifies this
      ensures Valid()
      ensures rowsPerPage == newRowsPerPage && page == 0
      ensures order == old(order) && orderBy == old(orderBy) && selected == old(selected)
      ensures loans == old(loans) && requests == old(requests)
    {
      rowsPerPage := newRowsPerPage;
      page := 0;
    }

    /** `isSelected(id)` */
    function IsSelected(id: int): bool
      reads this
    {
      Selection.IsSelected(selected, id)
    }

    /** `emptyRows` */
    function EmptyRows(): nat
      reads this
    {
      Pager.EmptyRows(page, rowsPerPage, |loans|)
    }

    /** `visibleRows` */
    function VisibleRows(): seq<Row>
      reads this
    {
      Visible(loans, order, orderBy, page, rowsPerPage)
    }

    /** The toolbar's buttons are shown, acting on `selected[0]`, only while a loan is selected. */
    method ExtendSelected(toolbar: Toolbar, reply: Reply<()>)
      requires Valid() && |selected| > 0
      modifies toolbar
      ensures Truthy(selected[0]) ==> toolbar.requests == old(toolbar.requests) + [ExtendLoan(selected[0])]
      ensures Truthy(selected[0]) ==> toolbar.alert == Some(ActionAlert(ExtendMessages, reply))
      ensures !Truthy(selected[0]) ==> toolbar.requests == old(toolbar.requests) && toolbar.alert == old(toolbar.alert)
    {
      toolbar.HandleExtendLoan(selected[0], reply);
    }

    /** The toolbar's return button, acting on `selected[0]`. */
    method ReturnSelected(toolbar: Toolbar, reply: Reply<()>)
      requires Valid() && |selected| > 0
      modifies toolbar
      ensures Truthy(selected[0]) ==> toolbar.requests == old(toolbar.requests) + [ReturnLoan(selected[0])]
      ensures Truthy(selected[0]) ==> toolbar.alert == Some(ActionAlert(ReturnMessages, reply))
      ensures !Truthy(selected[0]) ==> toolbar.requests == old(toolbar.requests) && toolbar.alert == old(toolbar.alert)
    {
      toolbar.HandleReturnLoan(selected[0], reply);
    }
  }

  /**
   * A falsy loan id (a loan the projection gave id 0) neither calls the library
   * nor raises an alert; any other id raises a success alert exactly when the
   * call succeeds, and a failure alert that carries the status code.
   */
  lemma ExtendAlertChoice(reply: Reply<()>)
    ensures ActionAlert(ExtendMessages, reply).severity == Success <==> Succeeded(reply)
    ensures reply.Replied? && !reply.success ==>
              StatusOf(ActionAlert(ExtendMessages, reply).message, "Failed to extend loan due date") == Some(reply.statusCode)
    ensures reply.Threw? ==> ActionAlert(ExtendMessages, reply) == Alert("Error extending loan due date", Error)
  {
  }
}
