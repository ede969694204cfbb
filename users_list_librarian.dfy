/**
 * The librarian's user list: every user in the order the server sent them, one
 * page at a time; clicking a user fetches that user's loans and shows them in a
 * panel below the table, and each row has an edit button.
 */
module UsersListLibrarian {
  import opened Optional
  import opened Pager
  import opened Api
  import opened Dtos

  const EditPrefix := "/editUser/"

  /** `/editUser/${userId}`: the edit page of the user, whose id reads back from the route. */
  function EditRoute(userId: int): (route: string)
    ensures |route| > |EditPrefix| && route[..|EditPrefix|] == EditPrefix
    ensures ParseDecimal(route[|EditPrefix|..]) == Some(userId)
  {
    var route := EditPrefix + Decimal(userId);
    assert route[|EditPrefix|..] == Decimal(userId);
    DecimalRoundTrip(userId);
    route
  }

  /** The three values a JavaScript `number | undefined | null` variable can hold here. */
  datatype JsId = Undefined | Null | Number(n: int)

  /** How a `number | undefined` state variable holds an optional id. */
  function AsJs(id: Option<int>): (v: JsId)
    ensures v != Null
    ensures id.None? <==> v == Undefined
  {
    if id.Some? then Number(id.value) else Undefined
  }

  /** `selected !== null`, the test guarding the loans panel, as written. */
  function ShowsLoansPanelAsWritten(selected: Option<int>): bool
  {
    AsJs(selected) != Null
  }

  /** The evidently intended test, `selected !== undefined`: a user has been chosen. */
  function ShowsLoansPanel(selected: Option<int>): (shown: bool)
    ensures shown <==> AsJs(selected) != Undefined
  {
    selected.Some?
  }

  /** As written, the loans panel is shown even before any user has been chosen. */
  lemma LoansPanelAlwaysShown(selected: Option<int>)
    ensures ShowsLoansPanelAsWritten(selected)
    ensures !ShowsLoansPanel(None) && ShowsLoansPanelAsWritten(None)
  {
  }

  /** `isSelected(userId)`, `selected === userId`, as written. */
  function MarksRowAsWritten(selected: Option<int>, userId: Option<int>): bool
  {
    AsJs(selected) == AsJs(userId)
  }

  /** The evidently intended test: a row is marked only when it is the chosen user's. */
  function MarksRow(selected: Option<int>, userId: Option<int>): (r: bool)
    ensures r <==> selected.Some? && userId == selected
  {
    userId.Some? && selected == userId
  }

  /** As written, a row without a user id is marked as selected while no user is chosen. */
  lemma RowWithoutIdMarkedSelected()
    ensures MarksRowAsWritten(None, None)
    ensures !MarksRow(None, None)
  {
  }

  /** For rows that have an id, both tests agree. */
  lemma MarksRowAgreesOnIds(selected: Option<int>, userId: int)
    ensures MarksRowAsWritten(selected, Some(userId)) == MarksRow(selected, Some(userId))
  {
  }

  /** The `UserList` component's state, in the librarian's variant. */
  class UsersListLibrarianView {
    var selected: Option<int>
    var page: nat
    var rowsPerPage: nat
    var users: seq<UserDto>
    var userLoans: seq<LoanDto>
    var deleteDialogOpen: bool
    var deletingUserId: Option<int>
    var requests: seq<Request>
    var route: Option<string>

    /**
     * No user's loans are held before a user is chosen, the page size is one
     * TablePagination offers, and an open dialog always knows which user it deletes.
     */
    ghost predicate Valid()
      reads this
    {
      && (selected.None? ==> userLoans == [])
      && RowsPerPageOption(rowsPerPage)
      && (deleteDialogOpen ==> deletingUserId.Some?)
    }

    /** The initial state: first page of 5, no user chosen, nothing loaded, no dialog. */
    constructor()
      ensures selected == None && page == 0 && rowsPerPage == 5 && users == [] && userLoans == []
      ensures !deleteDialogOpen && deletingUserId == None && requests == [] && route == None
      ensures Valid()
    {
      selected := None;
      page := 0;
      rowsPerPage := 5;
      users := [];
      userLoans := [];
      deleteDialogOpen := false;
      deletingUserId := None;
      requests := [];
      route := None;
    }

    /** `fetchUsers`, run once on mount. */
    method FetchUsers(reply: Reply<seq<UserDto>>)
      requires Valid()
      modifies this
      ensures Valid()
      ensures users == Refetched(old(users), reply) && requests == old(requests) + [GetUsers]
      ensures selected == old(selected) && userLoans == old(userLoans)
      ensures page == old(page) && rowsPerPage == old(rowsPerPage)
      ensures deleteDialogOpen == old(deleteDialogOpen) && deletingUserId == old(deletingUserId)
      ensures route == old(route)
    {
      requests := requests + [GetUsers];
      users := Refetched(users, reply);
    }

    /**
     * `handleClick`: for a user with an id, fetch that user's loans; the user
     * becomes the chosen one, with those loans, only when they are delivered.
     * A failed or raised fetch, or a user without an id, changes nothing else.
     */
    method HandleClick(userId: Option<int>, reply: Reply<seq<LoanDto>>)
      requires Valid()
      modifies this
      ensures Valid()
      ensures userId.None? ==> requests == old(requests)
      ensures userId.Some? ==> requests == old(requests) + [GetUserLoans(userId.value)]
      ensures userId.Some? && Delivered(reply) ==> selected == userId && userLoans == reply.data.value
      ensures !(userId.Some? && Delivered(reply)) ==> selected == old(selected) && userLoans == old(userLoans)
      ensures page == old(page) && rowsPerPage == old(rowsPerPage) && users == old(users)
      ensures deleteDialogOpen == old(deleteDialogOpen) && deletingUserId == old(deletingUserId)
      ensures route == old(route)
    {
      if userId.Some? {
        requests := requests + [GetUserLoans(userId.value)];
        if Delivered(reply) {
          selected := userId;
          userLoans := reply.data.value;
        }
      }
    }

    /** `handleChangePage` */
    method HandleChangePage(newPage: nat)
      requires Valid()
      modifies this
      ensures Valid()
      ensures page == newPage
      ensures selected == old(selected) && userLoans == old(userLoans)
      ensures rowsPerPage == old(rowsPerPage) && users == old(users)
      ensures deleteDialogOpen == old(deleteDialogOpen) && deletingUserId == old(deletingUserId)
      ensures requests == old(requests) && route == old(route)
    {
      page := newPage;
    }

    /** `handleChangeRowsPerPage`: the new page size, back to the first page. */
    method HandleChangeRowsPerPage(newRowsPerPage: int)
      requires Valid() && RowsPerPageOption(newRowsPerPage)
      modifies this
      ensures Valid()
      ensures rowsPerPage == newRowsPerPage && page == 0
      ensures selected == old(selected) && userLoans == old(userLoans) && users == old(users)
      ensures deleteDialogOpen == old(deleteDialogOpen) && deletingUserId == old(deletingUserId)
      ensures requests == old(requests) && route == old(route)
    {
      rowsPerPage := newRowsPerPage;
      page := 0;
    }

    /**
     * Whether the row of a user with this id is marked as selected, by the
     * corrected test: only the row of the chosen user, never an id-less row.
     */
    function IsSelected(userId: Option<int>): (r: bool)
      reads this
      ensures r <==> selected.Some? && userId == selected
    {
      MarksRow(selected, userId)
    }

    /**
     * `isSelected(userId)` as written: the two optional ids are equal, so an
     * id-less row is marked while no user is chosen.
     */
    function IsSelectedAsWritten(userId: Option<int>): (r: bool)
      reads this
      ensures r <==> selected == userId
    {
      MarksRowAsWritten(selected, userId)
    }

    /** Whether the "Loans of selected user" panel is shown, by the corrected test. */
    function LoansPanelShown(): (shown: bool)
      reads this
      ensures shown <==> selected.Some?
      ensures Valid() && !shown ==> userLoans == []
    {
      ShowsLoansPanel(selected)
    }

    /** The panel's guard `selected !== null` as written: it holds in every state. */
    function LoansPanelShownAsWritten(): (shown: bool)
      reads this
      ensures shown
    {
      ShowsLoansPanelAsWritten(selected)
    }

    /** `emptyRows` */
    function EmptyRows(): nat
      reads this
    {
      Pager.EmptyRows(page, rowsPerPage, |users|)
    }

    /** `visibleUsers`: the page, in the order the server sent the users. */
    function VisibleUsers(): seq<UserDto>
      reads this
    {
      Window(users, page, rowsPerPage)
    }

    /**
     * `handleDeleteUser`: the delete, the refetch only after a successful delete,
     * the users replaced only when both succeed; the dialog closes whatever happens.
     */
    method HandleDeleteUser(userId: int, deleteReply: Reply<()>, refetchReply: Reply<seq<UserDto>>)
      requires Valid()
      modifies this
      ensures Valid()
      ensures users == AfterDelete(old(users), deleteReply, refetchReply)
      ensures requests == old(requests) + DeleteCalls(DeleteUser(userId), GetUsers, deleteReply)
      ensures !deleteDialogOpen && deletingUserId == old(deletingUserId)
      ensures selected == old(selected) && userLoans == old(userLoans)
      ensures page == old(page) && rowsPerPage == old(rowsPerPage) && route == old(route)
    {
      requests := requests + [DeleteUser(userId)];
      if Succeeded(deleteReply) {
        requests := requests + [GetUsers];
        users := Refetched(users, refetchReply);
      }
      deleteDialogOpen := false;
    }

    /** `handleOpenDeleteDialog`: remembers the user and opens the dialog. */
    method HandleOpenDeleteDialog(userId: int)
      requires Valid()
      modifies this
      ensures Valid()
      ensures deleteDialogOpen && deletingUserId == Some(userId)
      ensures selected == old(selected) && userLoans == old(userLoans)
      ensures page == old(page) && rowsPerPage == old(rowsPerPage)
      ensures users == old(users) && requests == old(requests) && route == old(route)
    {
      deletingUserId := Some(userId);
      deleteDialogOpen := true;
    }

    /** `handleCloseDeleteDialog`: closes the dialog; the remembered user stays. */
    method HandleCloseDeleteDialog()
      requires Valid()
      modifies this
      ensures Valid()
      ensures !deleteDialogOpen && deletingUserId == old(deletingUserId)
      ensures selected == old(selected) && userLoans == old(userLoans)
      ensures page == old(page) && rowsPerPage == old(rowsPerPage)
      ensures users == old(users) && requests == old(requests) && route == old(route)
    {
      deleteDialogOpen := false;
    }

    /** The dialog's Delete button: `handleDeleteUser(deletingUserId!)`, only while the dialog is open. */
    method ConfirmDelete(deleteReply: Reply<()>, refetchReply: Reply<seq<UserDto>>)
      requires Valid() && deleteDialogOpen
      modifies this
      ensures Valid()
      ensures users == AfterDelete(old(users), deleteReply, refetchReply)
      ensures requests == old(requests) + DeleteCalls(DeleteUser(old(deletingUserId).value), GetUsers, deleteReply)
      ensures !deleteDialogOpen && deletingUserId == old(deletingUserId)
      ensures selected == old(selected) && userLoans == old(userLoans)
      ensures page == old(page) && rowsPerPage == old(rowsPerPage) && route == old(route)
    {
      HandleDeleteUser(deletingUserId.value, deleteReply, refetchReply);
    }

    /** `handleEditClick`: navigates to the user's edit page, only for a user with an id. */
    method HandleEditClick(userId: Option<int>)
      requires Valid()
      modifies this
      ensures Valid()
      ensures userId.Some? ==> route == Some(EditRoute(userId.value))
      ensures userId.None? ==> route == old(route)
      ensures selected == old(selected) && userLoans == old(userLoans)
      ensures page == old(page) && rowsPerPage == old(rowsPerPage)
      ensures users == old(users) && requests == old(requests)
      ensures deleteDialogOpen == old(deleteDialogOpen) && deletingUserId == old(deletingUserId)
    {
      if userId.Some? {
        route := Some(EditRoute(userId.value));
      }
    }
  }
}
