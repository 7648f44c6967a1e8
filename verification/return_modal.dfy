/** The return dialog (components/ReturnModal.jsx): the overdue preview and
    the empty-date guard. */
module ReturnModal {
  import opened Types
  import opened BorrowModel
  import opened Store
  import opened BorrowController

  /** The late days and the fee the dialog shows. */
  datatype OverduePreview = OverduePreview(days: int, amount: real)

  /** `calculateOverdue`: nothing for a date on or before the due date;
      otherwise the started late days and half the daily price for each. */
  function CalculateOverdue(dueDate: Instant, selected: Instant, pricePerDay: real): (o: OverduePreview)
    ensures selected <= dueDate ==> o == OverduePreview(0, 0.0)
    ensures selected > dueDate ==>
              && o.days >= 1
              && (o.days - 1) * DAY < selected - dueDate <= o.days * DAY
              && o.amount == o.days as real * pricePerDay * 0.5
  {
    if selected > dueDate then
      var days := OverdueDays(selected - dueDate);
      OverduePreview(days, OverdueFee(days, pricePerDay))
    else
      OverduePreview(0, 0.0)
  }

  /** The total the dialog shows: the borrow's cost plus the previewed fee. */
  function PreviewTotal(totalCost: real, o: OverduePreview): (t: real)
    ensures t - o.amount == totalCost
  {
    totalCost + o.amount
  }

  /** How a press of the return button ends. */
  datatype ReturnAttempt =
    | NoDate                                        // a toast, no request
    | Sent(response: Result<(State, Borrow)>)

  /** `handleReturn`: an empty date is refused before any request is sent. */
  function HandleReturn(s: State, caller: UserId, borrowId: BorrowId, returnDate: Option<Instant>): (a: ReturnAttempt)
    requires caller in s.users
    ensures returnDate.None? <==> a == NoDate
    ensures a.Sent? ==> a.response == SubmitReturn(s, caller, borrowId, returnDate)
  {
    if returnDate.None? then NoDate
    else Sent(SubmitReturn(s, caller, borrowId, returnDate))
  }

  /** For the same dates, the dialog previews exactly the late days, fee and
      total that `submitReturn` stores for a well-formed Active borrow, as
      every stored borrow is under the store invariant. */
  lemma PreviewMatchesReturn(s: State, caller: UserId, borrowId: BorrowId, t: Instant)
    requires caller in s.users
    requires borrowId in s.borrows && WellFormed(s.borrows[borrowId])
    requires SubmitReturn(s, caller, borrowId, Some(t)).Ok?
    ensures var b := s.borrows[borrowId];
            var b' := SubmitReturn(s, caller, borrowId, Some(t)).value.1;
            var o := CalculateOverdue(b.dueDate, t, b.pricePerDay);
            && o.days == b'.overdueDays
            && o.amount == b'.overdueAmount
            && PreviewTotal(b.totalCost, o) == b'.totalAmount
  {
  }
}
