/**
 * The administrator's user list: every user in the order the server sent them,
 * one page at a time, with one selectable user and a delete button behind a
 * confirmation dialog on each row.
 */
module UsersListAdmin {
  import opened Optional
  import opened Pager
  import opened Selection
  import opened Api
  import opened Dtos

  /** The users of a page that are drawn: those with a `userId`. */
  function WithIds(users: seq<UserDto>): (r: seq<UserDto>)
    ensures forall u :: u in r <==> u in users && u.userId.Some?
    ensures |r| <= |users|
  {
    if |users| == 0 then []
    else if users[0].userId.Some? then [users[0]] + WithIds(users[1..])
    else WithIds(users[1..])
  }

  /** The `UserList` component's state, in the administrator's variant. */
  class UsersListAdminView {
    var selected: seq<int>
    var page: nat
    var rowsPerPage: nat
    var users: seq<UserDto>
    var deleteDialogOpen: bool
    var deletingUserId: Option<int>
    var requests: seq<Request>

    /**
     * At most one user is selected, the page size is one TablePagination offers,
     * and an open dialog always knows which user it deletes.
     */
    ghost predicate Valid()
      reads this
    {
      && |selected| <= 1 && RowsPerPageOption(rowsPerPage)
      && (deleteDialogOpen ==> deletingUserId.Some?)
    }

    /** The initial state: first page of 5, nothing selected or loaded, no dialog. */
    constructor()
      ensures selected == [] && page == 0 && rowsPerPage == 5 && users == []
      ensures !deleteDialogOpen && deletingUserId == None && requests == []
      ensures Valid()
    {
      selected := [];
      page := 0;
      rowsPerPage := 5;
      users := [];
      deleteDialogOpen := false;
      deletingUserId := None;
      requests := [];
    }

    /** `fetchUsers`, run once on mount. */
    method FetchUsers(reply: Reply<seq<UserDto>>)
      requires Valid()
      modifies this
      ensures Valid()
      ensures users == Refetched(old(users), reply) && requests == old(requests) + [GetUsers]
      ensures selected == old(selected) && page == old(page) && rowsPerPage == old(rowsPerPage)
      ensures deleteDialogOpen == old(deleteDialogOpen) && deletingUserId == old(deletingUserId)
    {
      requests := requests + [GetUsers];
      users := Refetched(users, reply);
    }

    /**
     * `handleClick`: a click on a user without an id changes nothing; otherwise an
     * unselected user becomes the only selection, and a selected one is filtered out.
     */
    method HandleClick(id: Option<int>)
      requires Valid()
      modifies this
      ensures Valid()
      ensures id.None? ==> selected == old(selected)
      ensures id.Some? ==> selected == FilterToggle(old(selected), id.value)
      ensures page == old(page) && rowsPerPage == old(rowsPerPage) && users == old(users)
      ensures deleteDialogOpen == old(deleteDialogOpen) && deletingUserId == old(deletingUserId)
      ensures requests == old(requests)
    {
      if id.Some? {
        FilterToggleAgrees(selected, id.value);
        selected := FilterToggle(selected, id.value);
      }
    }

    /** `handleChangePage` */
    method HandleChangePage(newPage: nat)
      requires Valid()
      modifies this
      ensures Valid()
      ensures page == newPage
      ensures selected == old(selected) && rowsPerPage == old(rowsPerPage) && users == old(users)
      ensures deleteDialogOpen == old(deleteDialogOpen) && deletingUserId == old(deletingUserId)
      ensures requests == old(requests)
    {
      page := newPage;
    }

    /** `handleChangeRowsPerPage`: the new page size, back to the first page. */
    method HandleChangeRowsPerPage(newRowsPerPage: int)
      requires Valid() && RowsPerPageOption(newRowsPerPage)
      modifies this
      ensures Valid()
      ensures rowsPerPage == newRowsPerPage && page == 0
      ensures selected == old(selected) && users == old(users)
      ensures deleteDialogOpen == old(deleteDialogOpen) && deletingUserId == old(deletingUserId)
      ensures requests == old(requests)
    {
      rowsPerPage := newRowsPerPage;
      page := 0;
    }

    /** `isSelected(id)` */
    function IsSelected(id: int): bool
      reads this
    {
      Selection.IsSelected(selected, id)
    }

    /** `emptyRows`, counted against every user, drawn or not. */
    function EmptyRows(): nat
      reads this
    {
      Pager.EmptyRows(page, rowsPerPage, |users|)
    }

    /** `visibleUsers`: the page, in the order the server sent the users. */
    function VisibleUsers(): seq<UserDto>
      reads this
    {
      Window(users, page, rowsPerPage)
    }

    /** The rows of the page that are drawn. */
    function DrawnUsers(): seq<UserDto>
      reads this
    {
      WithIds(VisibleUsers())
    }

    /**
     * `handleDeleteUser`: the delete, the refetch only after a successful delete,
     * the users replaced only when both succeed; the dialog closes whatever happens.
     */
    method HandleDeleteUser(userId: int, deleteReply: Reply<()>, refetchReply: Reply<seq<UserDto>>)
      requires Valid()
      modifies this
      ensures Valid()
      ensures users == AfterDelete(old(users), deleteReply, refetchReply)
      ensures requests == old(requests) + DeleteCalls(DeleteUser(userId), GetUsers, deleteReply)
      ensures !deleteDialogOpen && deletingUserId == old(deletingUserId)
      ensures selected == old(selected) && page == old(page) && rowsPerPage == old(rowsPerPage)
    {
      requests := requests + [DeleteUser(userId)];
      if Succeeded(deleteReply) {
        requests := requests + [GetUsers];
        users := Refetched(users, refetchReply);
      }
      deleteDialogOpen := false;
    }

    /** `handleOpenDeleteDialog`: remembers the row's user and opens the dialog. */
    method HandleOpenDeleteDialog(userId: int)
      requires Valid()
      modifies this
      ensures Valid()
      ensures deleteDialogOpen && deletingUserId == Some(userId)
      ensures selected == old(selected) && page == old(page) && rowsPerPage == old(rowsPerPage)
      ensures users == old(users) && requests == old(requests)
    {
      deletingUserId := Some(userId);
      deleteDialogOpen := true;
    }

    /** `handleCloseDeleteDialog`: closes the dialog; the remembered user stays. */
    method HandleCloseDeleteDialog()
      requires Valid()
      modifies this
      ensures Valid()
      ensures !deleteDialogOpen && deletingUserId == old(deletingUserId)
      ensures selected == old(selected) && page == old(page) && rowsPerPage == old(rowsPerPage)
      ensures users == old(users) && requests == old(requests)
    {
      deleteDialogOpen := false;
    }

    /** The dialog's Delete button: `handleDeleteUser(deletingUserId!)`, only while the dialog is open. */
    method ConfirmDelete(deleteReply: Reply<()>, refetchReply: Reply<seq<UserDto>>)
      requires Valid() && deleteDialogOpen
      modifies this
      ensures Valid()
      ensures users == AfterDelete(old(users), deleteReply, refetchReply)
      ensures requests == old(requests) + DeleteCalls(DeleteUser(old(deletingUserId).value), GetUsers, deleteReply)
      ensures !deleteDialogOpen && deletingUserId == old(deletingUserId)
      ensures selected == old(selected) && page == old(page) && rowsPerPage == old(rowsPerPage)
    {
      HandleDeleteUser(deletingUserId.value, deleteReply, refetchReply);
    }
  }

  /**
   * The drawn rows keep the server's order, one row per user with an id: the
   * filter of a concatenation is the concatenation of the filters, a user with
   * an id is drawn as itself and a user without one is not drawn.
   */
  lemma {:induction false} WithIdsConcat(a: seq<UserDto>, b: seq<UserDto>)
    ensures WithIds(a + b) == WithIds(a) + WithIds(b)
    ensures forall u: UserDto :: u.userId.Some? ==> WithIds([u]) == [u]
    ensures forall u: UserDto :: u.userId.None? ==> WithIds([u]) == []
    decreases |a|
  {
    forall u: UserDto | u.userId.Some?
      ensures WithIds([u]) == [u]
    {
      assert [u][1..] == [];
    }
    forall u: UserDto | u.userId.None?
      ensures WithIds([u]) == []
    {
      assert [u][1..] == [];
    }
    if |a| == 0 {
      assert a + b == b;
    } else {
      assert (a + b)[0] == a[0];
      assert (a + b)[1..] == a[1..] + b;
      WithIdsConcat(a[1..], b);
    }
  }

  /**
   * A full page can draw fewer rows than a full page without any padding: users
   * without an id still count towards `count` and `emptyRows` but are not drawn.
   */
  lemma UndrawnUsersLeaveGaps(users: seq<UserDto>, page: nat, rowsPerPage: nat)
    requires (page + 1) * rowsPerPage <= |users|
    requires exists k :: page * rowsPerPage <= k < (page + 1) * rowsPerPage && users[k].userId.None?
    ensures |WithIds(Window(users, page, rowsPerPage))| < rowsPerPage
    ensures EmptyRows(page, rowsPerPage, |users|) == 0
  {
    var start := page * rowsPerPage;
    assert (page + 1) * rowsPerPage == start + rowsPerPage;
    var w := Window(users, page, rowsPerPage);
    assert |w| == rowsPerPage;
    var k :| start <= k < start + rowsPerPage && users[k].userId.None?;
    assert w[k - start] == users[k];
    WithIdsShorter(w, k - start);
  }

  /** Leaving out an element without an id shortens the drawn rows. */
  lemma {:induction false} WithIdsShorter(users: seq<UserDto>, k: int)
    requires 0 <= k < |users| && users[k].userId.None?
    ensures |WithIds(users)| < |users|
    decreases |users|
  {
    if k == 0 {
      assert WithIds(users) == WithIds(users[1..]);
    } else {
      WithIdsShorter(users[1..], k - 1);
    }
  }
}
