/** The borrow dialog (components/BorrowModal.jsx): the live cost preview and
    the client-side range check before validate-then-borrow. */
module BorrowModal {
  import opened Types
  import opened BorrowModel
  import opened Store
  import opened BorrowController

  /** What the dialog holds: the days typed and the cost it shows. */
  datatype BorrowForm = BorrowForm(numberOfDays: int, totalCost: real)

  /** The dialog opens on one day at one day's price. */
  function InitialForm(pricePerDay: real): (f: BorrowForm)
    ensures f.numberOfDays == 1 && f.totalCost == pricePerDay
  {
    BorrowForm(1, pricePerDay)
  }

  /** `handleDaysChange`: `parseInt(value) || 0` days (`None` is NaN, which
      falls back to 0) and the cost preview for them. */
  function HandleDaysChange(pricePerDay: real, parsed: Option<int>): (f: BorrowForm)
    ensures parsed.None? ==> f.numberOfDays == 0 && f.totalCost == 0.0
    ensures parsed.Some? ==> f.numberOfDays == parsed.value
    ensures f.totalCost == pricePerDay * f.numberOfDays as real
  {
    var days := if parsed.Some? then parsed.value else 0;
    BorrowForm(days, pricePerDay * days as real)
  }

  /** How a press of the borrow button ends. */
  datatype BorrowAttempt =
    | RejectedLocally                      // out-of-range days: a toast, no request
    | ValidationFailed(error: Error)       // validate refused; borrow is not requested
    | BorrowFailed(error: Error)           // borrow refused after validate accepted
    | Borrowed(state: State, borrow: Borrow)

  /** `handleBorrow`: the range check, then validate, and the borrow request
      only once validate has succeeded. */
  function HandleBorrow(form: BorrowForm, s: State, caller: UserId, book: BookRef, now: Instant): (a: BorrowAttempt)
    requires caller in s.users
    ensures a == RejectedLocally <==> form.numberOfDays <= 0 || form.numberOfDays > 30
    ensures a.ValidationFailed? <==>
              a != RejectedLocally && ValidateBorrow(s, caller, Some(book)).Err?
    ensures a.BorrowFailed? || a.Borrowed? ==>
              ValidateBorrow(s, caller, Some(book)).Ok?
    ensures a.Borrowed? ==>
              BorrowBook(s, caller, Some(book), Some(form.numberOfDays), now) == Ok((a.state, a.borrow))
  {
    if form.numberOfDays <= 0 || form.numberOfDays > 30 then RejectedLocally
    else
      match ValidateBorrow(s, caller, Some(book))
      case Err(e) => ValidationFailed(e)
      case Ok(_) =>
        match BorrowBook(s, caller, Some(book), Some(form.numberOfDays), now)
        case Err(e) => BorrowFailed(e)
        case Ok((s', b)) => Borrowed(s', b)
  }

  /** The dialog's range is the server's: a count the dialog lets through is
      one `borrowBook` accepts, and the other way round. */
  lemma ClientRangeIsServerRange(days: int)
    ensures !(days <= 0 || days > 30) <==> DaysGiven(Some(days)) && DaysInRange(days)
  {
  }

  /** Validate-then-borrow ends exactly as a direct `borrowBook` would: the
      same new state on success, the same error otherwise, and never an
      error from the borrow step itself. */
  lemma {:induction false} HandleBorrowMatchesServer(form: BorrowForm, s: State, caller: UserId, book: BookRef, now: Instant)
    requires caller in s.users
    requires 0 < form.numberOfDays <= 30
    ensures var a := HandleBorrow(form, s, caller, book, now);
            var r := BorrowBook(s, caller, Some(book), Some(form.numberOfDays), now);
            && !a.BorrowFailed?
            && (a.Borrowed? <==> r.Ok?)
            && (a.ValidationFailed? <==> r.Err?)
            && (a.ValidationFailed? ==> a.error == r.error)
  {
    assert DaysGiven(Some(form.numberOfDays)) && DaysInRange(form.numberOfDays);
  }

  /** The cost the dialog shows for the days typed is the cost the server
      records, and the one `calculateCost` quotes. */
  lemma PreviewCostMatchesServer(parsed: Option<int>, s: State, caller: UserId, book: BookRef, now: Instant)
    requires caller in s.users && book in s.books
    ensures var f := HandleDaysChange(s.books[book].pricePerDay, parsed);
            var a := HandleBorrow(f, s, caller, book, now);
            && (a.Borrowed? ==> a.borrow.totalCost == f.totalCost)
            && (a != RejectedLocally ==>
                  CalculateCost(s, Some(book), Some(f.numberOfDays)).Ok?
                  && CalculateCost(s, Some(book), Some(f.numberOfDays)).value.totalCost == f.totalCost)
  {
  }
}
