/** The borrow handlers (controllers/borrowController.js): eligibility check,
    cost quote, borrow, return and the borrow listings. */
module BorrowController {
  import opened Types
  import opened BookModel
  import opened UserModel
  import opened BorrowModel
  import opened PaymentModel
  import opened Store
  import opened Ordering

  /** What `validateBorrow` answers about an eligible book. */
  datatype BookSummary = BookSummary(id: BookRef, title: string, author: string, pricePerDay: real)

  /** What `calculateCost` answers. */
  datatype CostQuote = CostQuote(
    bookTitle: string, pricePerDay: real, numberOfDays: int, totalCost: real, maxBorrowDays: int)

  /** JavaScript truthiness of the `numberOfDays` field: absent and 0 both
      read as missing. */
  predicate DaysGiven(numberOfDays: Option<int>) {
    numberOfDays.Some? && numberOfDays.value != 0
  }

  /** The borrow period the server accepts. */
  predicate DaysInRange(days: int) {
    !(days <= 0 || days > MAX_BORROW_DAYS)
  }

  /** The four checks on an existing account and a given book id that both
      `validateBorrow` and `borrowBook` make. */
  predicate MayBorrow(s: State, caller: UserId, book: BookRef)
    requires caller in s.users
  {
    && book in s.books
    && s.books[book].isAvailable
    && !s.users[caller].hasActiveBorrow
    && !(s.users[caller].totalDebt > 0.0)
  }

  /** `validateBorrow`: the checks run in order and the first failure is the
      answer; nothing is written. */
  function ValidateBorrow(s: State, caller: UserId, bookId: Option<BookRef>): (r: Result<BookSummary>)
    requires caller in s.users
    ensures bookId.None? ==> r == Err(MissingField)
    ensures bookId.Some? && bookId.value !in s.books ==> r == Err(NotFound)
    ensures bookId.Some? && bookId.value in s.books && !s.books[bookId.value].isAvailable ==>
              r == Err(NotAvailable)
    ensures (bookId.Some? && bookId.value in s.books && s.books[bookId.value].isAvailable
             && s.users[caller].hasActiveBorrow) ==> r == Err(ActiveBorrowExists)
    ensures (bookId.Some? && bookId.value in s.books && s.books[bookId.value].isAvailable
             && !s.users[caller].hasActiveBorrow && s.users[caller].totalDebt > 0.0) ==> r == Err(HasDebt)
    ensures r.Ok? <==> bookId.Some? && MayBorrow(s, caller, bookId.value)
    ensures r.Ok? ==> var book := s.books[bookId.value];
              r.value == BookSummary(bookId.value, book.title, book.author, book.pricePerDay)
  {
    if bookId.None? then Err(MissingField)
    else if bookId.value !in s.books then Err(NotFound)
    else
      var book := s.books[bookId.value];
      var user := s.users[caller];
      if !book.isAvailable then Err(NotAvailable)
      else if user.hasActiveBorrow then Err(ActiveBorrowExists)
      else if user.totalDebt > 0.0 then Err(HasDebt)
      else Ok(BookSummary(bookId.value, book.title, book.author, book.pricePerDay))
  }

  /** `calculateCost`: the field and range checks come before the book
      lookup, and the quote is the daily price times the days. */
  function CalculateCost(s: State, bookId: Option<BookRef>, numberOfDays: Option<int>): (r: Result<CostQuote>)
    ensures bookId.None? || !DaysGiven(numberOfDays) ==> r == Err(MissingField)
    ensures bookId.Some? && DaysGiven(numberOfDays) && !DaysInRange(numberOfDays.value) ==>
              r == Err(DaysOutOfRange)
    ensures bookId.Some? && DaysGiven(numberOfDays) && DaysInRange(numberOfDays.value) ==>
              (r == Err(NotFound) <==> bookId.value !in s.books)
    ensures r.Ok? ==> && bookId.Some? && bookId.value in s.books
                      && numberOfDays.Some? && 1 <= numberOfDays.value <= MAX_BORROW_DAYS
                      && r.value.pricePerDay == s.books[bookId.value].pricePerDay
                      && r.value.numberOfDays == numberOfDays.value
                      && r.value.totalCost == r.value.pricePerDay * numberOfDays.value as real
                      && r.value.maxBorrowDays == 30
  {
    if bookId.None? || !DaysGiven(numberOfDays) then Err(MissingField)
    else if numberOfDays.value <= 0 then Err(DaysOutOfRange)
    else if numberOfDays.value > MAX_BORROW_DAYS then Err(DaysOutOfRange)
    else if bookId.value !in s.books then Err(NotFound)
    else
      var book := s.books[bookId.value];
      var totalCost := book.pricePerDay * numberOfDays.value as real;
      Ok(CostQuote(book.title, book.pricePerDay, numberOfDays.value, totalCost, MAX_BORROW_DAYS))
  }

  /** `borrowBook`: the field and range checks, then every `validateBorrow`
      check again, then one step that records an Active borrow, lends the
      book, raises the caller's debt by the cost and bills it as a Pending
      payment. A rejected request writes nothing. */
  function BorrowBook(s: State, caller: UserId, bookId: Option<BookRef>,
                      numberOfDays: Option<int>, now: Instant): (r: Result<(State, Borrow)>)
    requires caller in s.users
    ensures bookId.None? || !DaysGiven(numberOfDays) ==> r == Err(MissingField)
    ensures bookId.Some? && DaysGiven(numberOfDays) && !DaysInRange(numberOfDays.value) ==>
              r == Err(DaysOutOfRange)
    ensures bookId.Some? && DaysGiven(numberOfDays) && DaysInRange(numberOfDays.value) ==>
              && (r.Ok? <==> ValidateBorrow(s, caller, bookId).Ok?)
              && (r.Err? ==> r.error == ValidateBorrow(s, caller, bookId).error)
    ensures r.Ok? ==>
              var (s', b) := r.value;
              && bookId.Some? && numberOfDays.Some? && MayBorrow(s, caller, bookId.value)
              && 1 <= numberOfDays.value <= MAX_BORROW_DAYS
              // the new record
              && b.user == caller && b.book == bookId.value && b.status == Active
              && b.borrowDate == now && b.dueDate == now + numberOfDays.value * DAY
              && b.numberOfDays == numberOfDays.value
              && b.pricePerDay == s.books[bookId.value].pricePerDay
              && b.totalCost == b.pricePerDay * b.numberOfDays as real
              && b.totalAmount == b.totalCost
              && b.returnDate == None && b.overdueDays == 0 && b.overdueAmount == 0.0
              // it is stored under a fresh id, billed under the next one
              && s'.borrows == s.borrows[s.nextId := b]
              && s'.payments == s.payments[s.nextId + 1 := NewPayment(caller, s.nextId, b.totalCost, now)]
              && s'.nextId == s.nextId + 2
              // the book is lent to the caller
              && s'.books == s.books[bookId.value := s.books[bookId.value].(
                                       isAvailable := false, currentBorrower := Some(caller))]
              // the account holds a borrow and owes its cost on top
              && s'.users == s.users[caller := s.users[caller].(
                                       hasActiveBorrow := true,
                                       totalDebt := s.users[caller].totalDebt + b.totalCost)]
  {
    if bookId.None? || !DaysGiven(numberOfDays) then Err(MissingField)
    else if numberOfDays.value <= 0 || numberOfDays.value > MAX_BORROW_DAYS then Err(DaysOutOfRange)
    else if bookId.value !in s.books then Err(NotFound)
    else
      var bk := bookId.value;
      var days := numberOfDays.value;
      var book := s.books[bk];
      var user := s.users[caller];
      if !book.isAvailable then Err(NotAvailable)
      else if user.hasActiveBorrow then Err(ActiveBorrowExists)
      else if user.totalDebt > 0.0 then Err(HasDebt)
      else
        var totalCost := book.pricePerDay * days as real;
        var borrow := PreSave(NewBorrow(caller, bk, now, now + days * DAY, days,
                                        book.pricePerDay, totalCost, totalCost, Active));
        var s' := s.(
          borrows := s.borrows[s.nextId := borrow],
          books := s.books[bk := book.(isAvailable := false, currentBorrower := Some(caller))],
          users := s.users[caller := user.(hasActiveBorrow := true, totalDebt := user.totalDebt + totalCost)],
          payments := s.payments[s.nextId + 1 := NewPayment(caller, s.nextId, totalCost, now)],
          nextId := s.nextId + 2);
        Ok((s', borrow))
  }

  /** `getBorrowSummary`: the caller's own borrow record. */
  function GetBorrowSummary(s: State, caller: UserId, borrowId: BorrowId): (r: Result<Borrow>)
    ensures r.Ok? <==> borrowId in s.borrows && s.borrows[borrowId].user == caller
    ensures r.Ok? ==> r.value == s.borrows[borrowId]
    ensures borrowId !in s.borrows ==> r == Err(NotFound)
    ensures borrowId in s.borrows && s.borrows[borrowId].user != caller ==> r == Err(Forbidden)
  {
    if borrowId !in s.borrows then Err(NotFound)
    else if s.borrows[borrowId].user != caller then Err(Forbidden)
    else Ok(s.borrows[borrowId])
  }

  /** The record `submitReturn` writes before saving it: the return date, and
      status Returned, or Overdue with the overdue days and fee when the
      return date is after the due date. */
  function ReturnFields(b: Borrow, returnDate: Instant): (r: Borrow)
    ensures r.returnDate == Some(returnDate)
    ensures returnDate <= b.dueDate ==> r == b.(returnDate := Some(returnDate), status := Returned)
    ensures returnDate > b.dueDate ==>
              && r.status == Overdue
              && r.overdueDays == OverdueDays(returnDate - b.dueDate)
              && r.overdueAmount == OverdueFee(r.overdueDays, b.pricePerDay)
              && r.totalAmount == b.totalCost + r.overdueAmount
              && r.(returnDate := b.returnDate, status := b.status, overdueDays := b.overdueDays,
                    overdueAmount := b.overdueAmount, totalAmount := b.totalAmount) == b
  {
    var b1 := b.(returnDate := Some(returnDate), status := Returned);
    if returnDate > b.dueDate then
      var days := OverdueDays(returnDate - b.dueDate);
      var fee := OverdueFee(days, b.pricePerDay);
      b1.(overdueDays := days, overdueAmount := fee, totalAmount := b.totalCost + fee, status := Overdue)
    else
      b1
  }

  /** The linked payment re-billed for the returned borrow's total. */
  function Rebill(payments: map<PaymentId, Payment>, borrowId: BorrowId, amount: real): (r: map<PaymentId, Payment>)
    ensures r.Keys == payments.Keys
    ensures forall p :: p in payments && payments[p].borrow == borrowId ==>
              r[p] == payments[p].(amount := amount)
    ensures forall p :: p in payments && payments[p].borrow != borrowId ==> r[p] == payments[p]
  {
    map p | p in payments ::
      if payments[p].borrow == borrowId then payments[p].(amount := amount) else payments[p]
  }

  /** `submitReturn`: the checks in order, then one step that closes the
      borrow (through the pre-save hook), frees the book, clears the
      caller's active-borrow flag and re-bills the linked payment for the
      closed borrow's total. The caller's debt is left as it was. */
  function SubmitReturn(s: State, caller: UserId, borrowId: BorrowId,
                        returnDate: Option<Instant>): (r: Result<(State, Borrow)>)
    requires caller in s.users
    ensures returnDate.None? ==> r == Err(MissingField)
    ensures returnDate.Some? && borrowId !in s.borrows ==> r == Err(NotFound)
    ensures returnDate.Some? && borrowId in s.borrows && s.borrows[borrowId].user != caller ==>
              r == Err(Forbidden)
    ensures (returnDate.Some? && borrowId in s.borrows && s.borrows[borrowId].user == caller
             && s.borrows[borrowId].status != Active) ==> r == Err(AlreadyReturned)
    ensures r.Ok? ==>
              && returnDate.Some? && borrowId in s.borrows
              && s.borrows[borrowId].user == caller && s.borrows[borrowId].status == Active
    ensures r.Ok? ==>
              var (s', b') := r.value;
              var b := s.borrows[borrowId];
              var t := returnDate.value;
              && b'.returnDate == Some(t)
              // on time: Returned, the stored overdue fields kept and added in
              && (t <= b.dueDate ==>
                    && b'.status == Returned
                    && b'.overdueDays == b.overdueDays && b'.overdueAmount == b.overdueAmount
                    && b'.totalAmount == b.totalCost + b.overdueAmount)
              // late: Overdue, at least one started day, half the daily price per day
              && (t > b.dueDate ==>
                    && b'.status == Overdue
                    && b'.overdueDays >= 1
                    && (b'.overdueDays - 1) * DAY < t - b.dueDate <= b'.overdueDays * DAY
                    && b'.overdueAmount == b'.overdueDays as real * b.pricePerDay * 0.5
                    && b'.totalAmount == b.totalCost + b'.overdueAmount)
              // the other fields of the record are kept
              && b'.user == b.user && b'.book == b.book && b'.borrowDate == b.borrowDate
              && b'.dueDate == b.dueDate && b'.numberOfDays == b.numberOfDays
              && b'.pricePerDay == b.pricePerDay && b'.totalCost == b.totalCost
              && s'.borrows == s.borrows[borrowId := b']
              && (b.book in s.books ==>
                    s'.books == s.books[b.book := s.books[b.book].(isAvailable := true, currentBorrower := None)])
              && (b.book !in s.books ==> s'.books == s.books)
              && s'.users == s.users[caller := s.users[caller].(hasActiveBorrow := false)]
              && s'.payments == Rebill(s.payments, borrowId, b'.totalAmount)
              && s'.nextId == s.nextId
  {
    if returnDate.None? then Err(MissingField)
    else if borrowId !in s.borrows then Err(NotFound)
    else
      var b := s.borrows[borrowId];
      if b.user != caller then Err(Forbidden)
      else if b.status != Active then Err(AlreadyReturned)
      else
        var b' := PreSave(ReturnFields(b, returnDate.value));
        var books' :=
          if b.book in s.books
          then s.books[b.book := s.books[b.book].(isAvailable := true, currentBorrower := None)]
          else s.books;
        var s' := s.(
          borrows := s.borrows[borrowId := b'],
          books := books',
          users := s.users[caller := s.users[caller].(hasActiveBorrow := false)],
          payments := Rebill(s.payments, borrowId, b'.totalAmount));
        Ok((s', b'))
  }

  /** `getActiveBorrows`: the caller's Active borrows, latest borrow date first. */
  method GetActiveBorrows(s: State, caller: UserId) returns (r: seq<BorrowId>)
    ensures forall k :: k in r <==> k in s.borrows && s.borrows[k].user == caller && s.borrows[k].status == Active
    ensures Distinct(r)
    ensures SortedDesc(s.borrows, BorrowDateOf, r)
  {
    r := SelectDesc(s.borrows, (b: Borrow) => b.user == caller && b.status == Active, BorrowDateOf);
  }

  /** `getBorrowHistory`: the caller's Returned and Overdue borrows, latest
      return date first. */
  method GetBorrowHistory(s: State, caller: UserId) returns (r: seq<BorrowId>)
    ensures forall k :: k in r <==>
              k in s.borrows && s.borrows[k].user == caller && s.borrows[k].status in {Returned, Overdue}
    ensures Distinct(r)
    ensures SortedDesc(s.borrows, ReturnDateOf, r)
  {
    r := SelectDesc(s.borrows, (b: Borrow) => b.user == caller && b.status in {Returned, Overdue}, ReturnDateOf);
  }
}
