/** The Book document (models/Book.js). */
module BookModel {
  import opened Types

  datatype Book = Book(
    bookId: string,
    title: string,
    author: string,
    pricePerDay: real,
    groupPricePerDay: real,
    isAvailable: bool,
    currentBorrower: Option<UserId>)

  /** A book is lent out exactly when it names a borrower. */
  predicate AvailabilityConsistent(b: Book) {
    b.isAvailable <==> b.currentBorrower.None?
  }

  /** Validation of a new Book document: a required String must be a non-empty
      string, a required Number must be present; `isAvailable` and
      `currentBorrower` take their schema defaults. */
  function NewBook(bookId: string, title: string, author: string,
                   pricePerDay: Option<real>, groupPricePerDay: Option<real>): (r: Result<Book>)
    ensures r.Ok? <==> bookId != [] && title != [] && author != []
                       && pricePerDay.Some? && groupPricePerDay.Some?
    ensures r.Err? ==> r.error == MissingField
    ensures r.Ok? ==> && r.value.bookId == bookId && r.value.title == title
                      && r.value.author == author
                      && r.value.pricePerDay == pricePerDay.value
                      && r.value.groupPricePerDay == groupPricePerDay.value
    ensures r.Ok? ==> r.value.isAvailable && r.value.currentBorrower == None
    ensures r.Ok? ==> AvailabilityConsistent(r.value)
  {
    if bookId == [] || title == [] || author == [] then Err(MissingField)
    else if pricePerDay.None? || groupPricePerDay.None? then Err(MissingField)
    else Ok(Book(bookId, title, author, pricePerDay.value, groupPricePerDay.value, true, None))
  }
}
