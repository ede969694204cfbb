/**
 * The reader's review list: every review, sortable by any column, one page at
 * a time; clicking a row shows its comment underneath, and clicking it again
 * hides it.
 */
module ReviewListUser {
  import opened Optional
  import opened Values
  import opened Comparator
  import opened Pager
  import opened Selection
  import opened SortHeader
  import opened Api
  import opened Dtos
  import opened ListView

  /** The columns of the table: `keyof Data`. */
  datatype Field = Id | UserName | Title | Author | ReviewDate | Comment | Rating

  /** `Data`: one row of the table. */
  datatype Row = Row(id: int, userName: string, title: string, author: string, reviewDate: string,
                     comment: string, rating: int)

  /** `row[orderBy]`: the review id and the rating are numbers, every other column text. */
  function Cell(r: Row, f: Field): (v: Value)
    ensures v.Num? <==> f == Id || f == Rating
  {
    match f
    case Id => Num(r.id)
    case UserName => Str(r.userName)
    case Title => Str(r.title)
    case Author => Str(r.author)
    case ReviewDate => Str(r.reviewDate)
    case Comment => Str(r.comment)
    case Rating => Num(r.rating)
  }

  function KeyOf(f: Field): Row -> Value
  {
    r => Cell(r, f)
  }

  /** The projection of one review, with `|| 0` and `|| ''` for missing fields. */
  function ToRow(review: ReviewDto): Row
  {
    Row(OrZero(review.reviewId), UserNameOf(review.user), TitleOf(review.book), AuthorOf(review.book),
        OrEmpty(review.reviewDate), OrEmpty(review.comment), OrZero(review.rating))
  }

  /** `reviews.map(...)`: one row per review, in the same order. */
  function Rows(reviews: seq<ReviewDto>): seq<Row>
  {
    Project(reviews, ToRow)
  }

  /** Each row carries its review's fields, or 0 and '' where the review lacks them. */
  lemma ProjectionFallbacks(reviews: seq<ReviewDto>, k: int)
    requires 0 <= k < |reviews|
    ensures var r, v := Rows(reviews)[k], reviews[k];
            && (v.reviewId.Some? ==> r.id == v.reviewId.value) && (v.reviewId.None? ==> r.id == 0)
            && (v.user.Some? && v.user.value.userName.Some? ==> r.userName == v.user.value.userName.value)
            && (v.user.None? || v.user.value.userName.None? ==> r.userName == "")
            && (v.book.Some? && v.book.value.title.Some? ==> r.title == v.book.value.title.value)
            && (v.book.None? || v.book.value.title.None? ==> r.title == "")
            && (v.book.Some? && v.book.value.author.Some? ==> r.author == v.book.value.author.value)
            && (v.book.None? || v.book.value.author.None? ==> r.author == "")
            && (v.reviewDate.Some? ==> r.reviewDate == v.reviewDate.value) && (v.reviewDate.None? ==> r.reviewDate == "")
            && (v.comment.Some? ==> r.comment == v.comment.value) && (v.comment.None? ==> r.comment == "")
            && (v.rating.Some? ==> r.rating == v.rating.value) && (v.rating.None? ==> r.rating == 0)
  {
  }

  /** `visibleRows` for the given state. */
  function Visible(reviews: seq<ReviewDto>, order: Order, orderBy: Field, page: nat, rowsPerPage: nat): seq<Row>
  {
    VisibleRows(Rows(reviews), order, KeyOf(orderBy), page, rowsPerPage)
  }

  /** The `ReviewList` component's state. */
  class ReviewListView {
    var order: Order
    var orderBy: Field
    var selected: seq<int>
    var page: nat
    var rowsPerPage: nat
    var reviews: seq<ReviewDto>
    var expandedRow: Option<int>
    var requests: seq<Request>

    /** Nothing ever selects a review, and the page size is one TablePagination offers. */
    ghost predicate Valid()
      reads this
    {
      selected == [] && RowsPerPageOption(rowsPerPage)
    }

    /** The initial state: ascending by review id, first page of 5, nothing selected or loaded. */
    constructor()
      ensures order == Asc && orderBy == Id && selected == [] && page == 0 && rowsPerPage == 5
      ensures reviews == [] && expandedRow == None && requests == []
      ensures Valid()
    {
      order := Asc;
      orderBy := Id;
      selected := [];
      page := 0;
      rowsPerPage := 5;
      reviews := [];
      expandedRow := None;
      requests := [];
    }

    /** `fetchReviews`, run once on mount. */
    method FetchReviews(reply: Reply<seq<ReviewDto>>)
      requires Valid()
      modifies this
      ensures Valid()
      ensures reviews == Refetched(old(reviews), reply) && requests == old(requests) + [GetReviews]
      ensures order == old(order) && orderBy == old(orderBy) && selected == old(selected)
      ensures page == old(page) && rowsPerPage == old(rowsPerPage) && expandedRow == old(expandedRow)
    {
      requests := requests + [GetReviews];
      reviews := Refetched(reviews, reply);
    }

    /** `handleRequestSort` */
    method HandleRequestSort(property: Field)
      requires Valid()
      modifies this
      ensures Valid()
      ensures SortState(order, orderBy) == RequestSort(old(SortState(order, orderBy)), property)
      ensures selected == old(selected) && page == old(page) && rowsPerPage == old(rowsPerPage)
      ensures reviews == old(reviews) && expandedRow == old(expandedRow) && requests == old(requests)
    {
      var isAsc := orderBy == property && order == Asc;
      order := if isAsc then Desc else Asc;
      orderBy := property;
    }

    /** `handleClick`: opens the clicked review's comment, or closes it when it was open. */
    method HandleClick(id: int)
      requires Valid()
      modifies this
      ensures Valid()
      ensures expandedRow == ToggleExpanded(old(expandedRow), id)
      ensures order == old(order) && orderBy == old(orderBy) && selected == old(selected)
      ensures page == old(page) && rowsPerPage == old(rowsPerPage)
      ensures reviews == old(reviews) && requests == old(requests)
    {
      expandedRow := if expandedRow == Some(id) then None else Some(id);
    }

    /** `handleChangePage` */
    method HandleChangePage(newPage: nat)
      requires Valid()
      modifies this
      ensures Valid()
      ensures page == newPage
      ensures order == old(order) && orderBy == old(orderBy) && selected == old(selected) && rowsPerPage == old(rowsPerPage)
      ensures reviews == old(reviews) && expandedRow == old(expandedRow) && requests == old(requests)
    {
      page := newPage;
    }

    /** `handleChangeRowsPerPage`: the new page size, back to the first page. */
    method HandleChangeRowsPerPage(newRowsPerPage: int)
      requires Valid() && RowsPerPageOption(newRowsPerPage)
      modifies this
      ensures Valid()
      ensures rowsPerPage == newRowsPerPage && page == 0
      ensures order == old(order) && orderBy == old(orderBy) && selected == old(selected)
      ensures reviews == old(reviews) && expandedRow == old(expandedRow) && requests == old(requests)
    {
      rowsPerPage := newRowsPerPage;
      page := 0;
    }

    /** `isSelected(id)`: never true, since `selected` is never set. */
    function IsSelected(id: int): (r: bool)
      requires Valid()
      reads this
      ensures !r
    {
      Selection.IsSelected(selected, id)
    }

    /** `emptyRows` */
    function EmptyRows(): nat
      reads this
    {
      Pager.EmptyRows(page, rowsPerPage, |reviews|)
    }

    /** `visibleRows` */
    function VisibleRows(): seq<Row>
      reads this
    {
      Visible(reviews, order, orderBy, page, rowsPerPage)
    }
  
    /** `expandedRow === row.id`: whether the comment line under a row with this id is shown. */
    function CommentShown(id: int): bool
      reads this
    {
      expandedRow == Some(id)
    }
  }
}
