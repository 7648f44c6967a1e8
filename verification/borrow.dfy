/** The Borrow document (models/Borrow.js), the overdue arithmetic it shares
    with the return handler and the client preview, and its pre-save hook. */
module BorrowModel {
  import opened Types

  datatype BorrowStatus = Active | Returned | Overdue

  datatype Borrow = Borrow(
    user: UserId,
    book: BookRef,
    borrowDate: Instant,
    dueDate: Instant,
    returnDate: Option<Instant>,
    numberOfDays: int,
    pricePerDay: real,
    totalCost: real,
    overdueDays: int,
    overdueAmount: real,
    totalAmount: real,
    status: BorrowStatus)

  /** `Borrow.create` with the fields the borrow handler gives; `returnDate`,
      `overdueDays` and `overdueAmount` take their schema defaults. */
  function NewBorrow(user: UserId, book: BookRef, borrowDate: Instant, dueDate: Instant,
                     numberOfDays: int, pricePerDay: real, totalCost: real,
                     totalAmount: real, status: BorrowStatus): (b: Borrow)
    ensures b.returnDate == None && b.overdueDays == 0 && b.overdueAmount == 0.0
    ensures b.user == user && b.book == book && b.status == status
    ensures b.borrowDate == borrowDate && b.dueDate == dueDate && b.numberOfDays == numberOfDays
    ensures b.pricePerDay == pricePerDay && b.totalCost == totalCost && b.totalAmount == totalAmount
  {
    Borrow(user, book, borrowDate, dueDate, None, numberOfDays, pricePerDay, totalCost,
           0, 0.0, totalAmount, status)
  }

  /** The number of started days in a positive lateness of `diff` milliseconds:
      `Math.ceil(diff / DAY)`. */
  function OverdueDays(diff: int): (days: int)
    requires diff > 0
    ensures days >= 1
    ensures (days - 1) * DAY < diff <= days * DAY
  {
    (diff + DAY - 1) / DAY
  }

  /** The overdue fee: half the daily price for each late day. */
  function OverdueFee(days: int, pricePerDay: real): real {
    days as real * pricePerDay * OVERDUE_RATE
  }

  /** The ceiling characterisation pins the day count down: any `d` with
      `(d - 1) * DAY < diff <= d * DAY` is the one `OverdueDays` computes. */
  lemma OverdueDaysUnique(diff: int, d: int)
    requires diff > 0
    requires (d - 1) * DAY < diff <= d * DAY
    ensures OverdueDays(diff) == d
  {
  }

  /** Returning exactly `k` whole days late costs `k` overdue days. */
  lemma OverdueWholeDays(k: int)
    requires k >= 1
    ensures OverdueDays(k * DAY) == k
  {
    OverdueDaysUnique(k * DAY, k);
  }

  /** The pre-save hook: on a Returned record with a return date it recomputes
      the overdue fields when the return is late, and always resets
      `totalAmount` to `totalCost + overdueAmount`. Any other record is saved
      as it is. */
  function PreSave(b: Borrow): (r: Borrow)
    ensures !(b.status == Returned && b.returnDate.Some?) ==> r == b
    ensures b.status == Returned && b.returnDate.Some? ==>
              && r.totalAmount == r.totalCost + r.overdueAmount
              && r.(overdueDays := b.overdueDays, overdueAmount := b.overdueAmount,
                    totalAmount := b.totalAmount) == b
    ensures b.status == Returned && b.returnDate.Some? && b.returnDate.value > b.dueDate ==>
              && r.overdueDays == OverdueDays(b.returnDate.value - b.dueDate)
              && r.overdueAmount == OverdueFee(r.overdueDays, b.pricePerDay)
    ensures b.status == Returned && b.returnDate.Some? && b.returnDate.value <= b.dueDate ==>
              r.overdueDays == b.overdueDays && r.overdueAmount == b.overdueAmount
  {
    if b.status == Returned && b.returnDate.Some? then
      var b1 :=
        if b.returnDate.value > b.dueDate then
          var days := OverdueDays(b.returnDate.value - b.dueDate);
          b.(overdueDays := days, overdueAmount := OverdueFee(days, b.pricePerDay))
        else b;
      b1.(totalAmount := b1.totalCost + b1.overdueAmount)
    else b
  }

  /** Saving twice is saving once. */
  lemma PreSaveIdempotent(b: Borrow)
    ensures PreSave(PreSave(b)) == PreSave(b)
  {
  }

  /** The record-level invariant every stored borrow keeps: the period lies in
      1..MAX_BORROW_DAYS, cost and due date follow from it, and the return
      fields agree with the status. */
  ghost predicate WellFormed(b: Borrow) {
    && 1 <= b.numberOfDays <= MAX_BORROW_DAYS
    && b.totalCost == b.pricePerDay * b.numberOfDays as real
    && b.dueDate == b.borrowDate + b.numberOfDays * DAY
    && match b.status
       case Active =>
         && b.returnDate == None && b.overdueDays == 0 && b.overdueAmount == 0.0
         && b.totalAmount == b.totalCost
       case Returned =>
         && b.returnDate.Some? && b.returnDate.value <= b.dueDate
         && b.overdueDays == 0 && b.overdueAmount == 0.0
         && b.totalAmount == b.totalCost
       case Overdue =>
         && b.returnDate.Some? && b.returnDate.value > b.dueDate
         && b.overdueDays == OverdueDays(b.returnDate.value - b.dueDate)
         && b.overdueAmount == OverdueFee(b.overdueDays, b.pricePerDay)
         && b.totalAmount == b.totalCost + b.overdueAmount
  }

  /** The hook leaves every well-formed record as it is. */
  lemma PreSaveKeepsWellFormed(b: Borrow)
    requires WellFormed(b)
    ensures PreSave(b) == b
  {
  }

  /** Sort keys for the listings. */
  function BorrowDateOf(b: Borrow): int { b.borrowDate }

  /** A borrow without a return date sorts as the epoch; every listed history
      record has one. */
  function ReturnDateOf(b: Borrow): int {
    match b.returnDate
    case Some(t) => t
    case None => 0
  }
}
