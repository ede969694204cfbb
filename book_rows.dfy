/**
 * The table rows of the three book lists (the reader's, the librarian's and the
 * administrator's), which share one `Data` shape and one projection.
 */
module BookRows {
  import opened Values
  import opened Comparator
  import opened Dtos
  import opened ListView

  /** The columns of a book table: `keyof Data`. */
  datatype Field = Id | Title | Author | Isbn | Publisher | PublishYear | AvailableCopies

  /** `Data`: one row of a book table. */
  datatype Row = Row(id: int, title: string, author: string, isbn: string, publisher: string,
                     publishYear: string, availableCopies: int)

  /** `row[orderBy]`: the id and the number of available copies are numbers, the rest text. */
  function Cell(r: Row, f: Field): (v: Value)
    ensures v.Num? <==> f == Id || f == AvailableCopies
  {
    match f
    case Id => Num(r.id)
    case Title => Str(r.title)
    case Author => Str(r.author)
    case Isbn => Str(r.isbn)
    case Publisher => Str(r.publisher)
    case PublishYear => Str(r.publishYear)
    case AvailableCopies => Num(r.availableCopies)
  }

  function KeyOf(f: Field): Row -> Value
  {
    r => Cell(r, f)
  }

  /** The projection of one book, with `|| 0` and `|| ''` for missing fields. */
  function ToRow(book: BookDto): Row
  {
    Row(OrZero(book.id), OrEmpty(book.title), OrEmpty(book.author), OrEmpty(book.isbn),
        OrEmpty(book.publisher), OrEmpty(book.publishYear), OrZero(book.availableCopies))
  }

  /** `books.map(...)`: one row per book, in the same order. */
  function Rows(books: seq<BookDto>): seq<Row>
  {
    Project(books, ToRow)
  }

  /** Each row carries its book's fields, or 0 and '' where the book lacks them. */
  lemma ProjectionFallbacks(books: seq<BookDto>, k: int)
    requires 0 <= k < |books|
    ensures var r, b := Rows(books)[k], books[k];
            && (b.id.Some? ==> r.id == b.id.value) && (b.id.None? ==> r.id == 0)
            && (b.title.Some? ==> r.title == b.title.value) && (b.title.None? ==> r.title == "")
            && (b.author.Some? ==> r.author == b.author.value) && (b.author.None? ==> r.author == "")
            && (b.isbn.Some? ==> r.isbn == b.isbn.value) && (b.isbn.None? ==> r.isbn == "")
            && (b.publisher.Some? ==> r.publisher == b.publisher.value) && (b.publisher.None? ==> r.publisher == "")
            && (b.publishYear.Some? ==> r.publishYear == b.publishYear.value)
            && (b.publishYear.None? ==> r.publishYear == "")
            && (b.availableCopies.Some? ==> r.availableCopies == b.availableCopies.value)
            && (b.availableCopies.None? ==> r.availableCopies == 0)
  {
  }

  /** `visibleRows` of a book table in the given state. */
  function Visible(books: seq<BookDto>, order: Order, orderBy: Field, page: nat, rowsPerPage: nat): seq<Row>
  {
    VisibleRows(Rows(books), order, KeyOf(orderBy), page, rowsPerPage)
  }
}
