/**
 * The response records the list views receive. Every field may be absent
 * (`T | undefined`); the projections into table rows fill absent fields with
 * `|| 0` and `|| ''`.
 */
module Dtos {
  import opened Optional

  /** `UserResponseDto` */
  datatype UserDto = UserDto(
    userId: Option<int>,
    userName: Option<string>,
    userPassword: Option<string>,
    role: Option<string>,
    email: Option<string>,
    userFirstName: Option<string>,
    userLastName: Option<string>)

  /** `BookResponseDto` */
  datatype BookDto = BookDto(
    id: Option<int>,
    isbn: Option<string>,
    title: Option<string>,
    author: Option<string>,
    publisher: Option<string>,
    publishYear: Option<string>,
    availableCopies: Option<int>)

  /** `LoanResponseDto` */
  datatype LoanDto = LoanDto(
    loanId: Option<int>,
    user: Option<UserDto>,
    book: Option<BookDto>,
    loanDate: Option<string>,
    dueDate: Option<string>,
    returnDate: Option<string>)

  /** `LoanArchiveResponseDto` */
  datatype ArchiveLoanDto = ArchiveLoanDto(
    loanArchiveId: Option<int>,
    user: Option<UserDto>,
    book: Option<BookDto>,
    loanDate: Option<string>,
    dueDate: Option<string>,
    returnDate: Option<string>)

  /** `ReviewResponseDto` */
  datatype ReviewDto = ReviewDto(
    reviewId: Option<int>,
    user: Option<UserDto>,
    book: Option<BookDto>,
    comment: Option<string>,
    rating: Option<int>,
    reviewDate: Option<string>)

  /** `x || 0` on an optional number: 0 is the only falsy number that occurs. */
  function OrZero(x: Option<int>): (r: int)
    ensures x.Some? ==> r == x.value
    ensures x.None? ==> r == 0
  {
    x.GetOr(0)
  }

  /** `x || ''` on an optional string: '' is the only falsy string. */
  function OrEmpty(x: Option<string>): (r: string)
    ensures x.Some? ==> r == x.value
    ensures x.None? ==> r == ""
  {
    x.GetOr("")
  }

  /** `user?.userName || ''` */
  function UserNameOf(user: Option<UserDto>): (r: string)
    ensures user.Some? && user.value.userName.Some? ==> r == user.value.userName.value
    ensures user.None? || user.value.userName.None? ==> r == ""
  {
    if user.Some? then OrEmpty(user.value.userName) else ""
  }

  /** `book?.title || ''` */
  function TitleOf(book: Option<BookDto>): (r: string)
    ensures book.Some? && book.value.title.Some? ==> r == book.value.title.value
    ensures book.None? || book.value.title.None? ==> r == ""
  {
    if book.Some? then OrEmpty(book.value.title) else ""
  }

  /** `book?.isbn || ''` */
  function IsbnOf(book: Option<BookDto>): (r: string)
    ensures book.Some? && book.value.isbn.Some? ==> r == book.value.isbn.value
    ensures book.None? || book.value.isbn.None? ==> r == ""
  {
    if book.Some? then OrEmpty(book.value.isbn) else ""
  }

  /** `book?.author || ''` */
  function AuthorOf(book: Option<BookDto>): (r: string)
    ensures book.Some? && book.value.author.Some? ==> r == book.value.author.value
    ensures book.None? || book.value.author.None? ==> r == ""
  {
    if book.Some? then OrEmpty(book.value.author) else ""
  }
}
