/** Multi-step behaviour of the handlers: what a second call sees after a
    first one succeeded, and the two ways debt and billed amounts drift
    apart over a full borrow -> return -> pay cycle. */
module Scenarios {
  import opened Types
  import opened BorrowModel
  import opened PaymentModel
  import opened Store
  import opened BorrowController
  import opened PaymentController
  import opened BookController

  /** After a successful borrow the book is out of the catalog's available
      list and the borrower can borrow nothing more until they return it. */
  lemma BorrowLocksBookAndUser(s: State, caller: UserId, bk: BookRef, days: int, now: Instant,
                               other: UserId, bk2: Option<BookRef>)
    requires caller in s.users && other in s.users
    requires BorrowBook(s, caller, Some(bk), Some(days), now).Ok?
    ensures var s' := BorrowBook(s, caller, Some(bk), Some(days), now).value.0;
            && bk in s.books && bk !in GetAvailableBooks(s')
            && ValidateBorrow(s', other, Some(bk)) == Err(NotAvailable)
            && (bk2.Some? && bk2.value in s'.books && s'.books[bk2.value].isAvailable ==>
                  ValidateBorrow(s', caller, bk2) == Err(ActiveBorrowExists))
            && ValidateBorrow(s', caller, bk2).Err?
  {
  }

  /** After a successful return the book is available again and the account
      no longer blocks a new borrow on the active-borrow check. */
  lemma ReturnReleasesBookAndUser(s: State, caller: UserId, borrowId: BorrowId, t: Instant)
    requires caller in s.users
    requires SubmitReturn(s, caller, borrowId, Some(t)).Ok?
    requires s.borrows[borrowId].book in s.books
    ensures var s' := SubmitReturn(s, caller, borrowId, Some(t)).value.0;
            && s.borrows[borrowId].book in GetAvailableBooks(s')
            && !s'.users[caller].hasActiveBorrow
            && s'.users[caller].totalDebt == s.users[caller].totalDebt
            && (ValidateBorrow(s', caller, Some(s.borrows[borrowId].book)).Ok? <==>
                !(s.users[caller].totalDebt > 0.0))
  {
  }

  /** A borrow is returned at most once: a second return is refused. */
  lemma ReturnTwiceFails(s: State, caller: UserId, borrowId: BorrowId, t: Instant, t2: Option<Instant>)
    requires caller in s.users
    requires SubmitReturn(s, caller, borrowId, Some(t)).Ok?
    ensures var s' := SubmitReturn(s, caller, borrowId, Some(t)).value.0;
            && caller in s'.users
            && SubmitReturn(s', caller, borrowId, t2).Err?
            && (t2.Some? ==> SubmitReturn(s', caller, borrowId, t2) == Err(AlreadyReturned))
  {
  }

  /** A payment is settled at most once: a second settlement is refused. */
  lemma PayTwiceFails(s: State, caller: UserId, paymentId: PaymentId, now: Instant, later: Instant)
    requires caller in s.users
    requires MarkPaymentAsPaid(s, caller, paymentId, now).Ok?
    ensures var s' := MarkPaymentAsPaid(s, caller, paymentId, now).value.0;
            && caller in s'.users
            && MarkPaymentAsPaid(s', caller, paymentId, later) == Err(AlreadyPaid)
  {
  }

  /** Returning a borrow never touches a payment's status or payment date:
      only settlement does. */
  lemma ReturnKeepsSettlement(s: State, caller: UserId, borrowId: BorrowId, t: Option<Instant>)
    requires caller in s.users
    requires SubmitReturn(s, caller, borrowId, t).Ok?
    ensures var s' := SubmitReturn(s, caller, borrowId, t).value.0;
            && s'.payments.Keys == s.payments.Keys
            && forall p :: p in s.payments ==>
                 && s'.payments[p].status == s.payments[p].status
                 && s'.payments[p].paymentDate == s.payments[p].paymentDate
                 && s'.payments[p].user == s.payments[p].user
                 && s'.payments[p].borrow == s.payments[p].borrow
  {
  }

  /** Under the invariant, a return on or before the due date closes the
      borrow with no fee and bills exactly the borrow's cost. */
  lemma OnTimeReturnBillsCost(s: State, caller: UserId, borrowId: BorrowId, t: Instant)
    requires Valid(s) && caller in s.users
    requires SubmitReturn(s, caller, borrowId, Some(t)).Ok?
    requires t <= s.borrows[borrowId].dueDate
    ensures var (s', b') := SubmitReturn(s, caller, borrowId, Some(t)).value;
            && b'.status == Returned && b'.overdueDays == 0 && b'.overdueAmount == 0.0
            && b'.totalAmount == b'.totalCost
            && forall p :: p in s'.payments && s'.payments[p].borrow == borrowId ==>
                 s'.payments[p].amount == b'.totalCost
  {
    assert WellFormed(s.borrows[borrowId]);
  }

  /** The states of a full cycle: borrow `bk` for `days` days at `t0`,
      return it at `t1`, then settle its payment at `t2`. */
  function Cycle(s: State, caller: UserId, bk: BookRef, days: int, t0: Instant, t1: Instant, t2: Instant)
    : (r: Result<(State, State, State)>)
    requires caller in s.users
    ensures r.Ok? ==> caller in r.value.0.users && caller in r.value.1.users && caller in r.value.2.users
  {
    match BorrowBook(s, caller, Some(bk), Some(days), t0)
    case Err(e) => Err(e)
    case Ok((s1, _)) =>
      match SubmitReturn(s1, caller, s.nextId, Some(t1))
      case Err(e) => Err(e)
      case Ok((s2, _)) =>
        match MarkPaymentAsPaid(s2, caller, s.nextId + 1, t2)
        case Err(e) => Err(e)
        case Ok((s3, _)) => Ok((s1, s2, s3))
  }

  /** Borrow, late return, payment: the debt is raised by the cost alone but
      lowered by the cost plus the overdue fee, so an account that started
      debt-free ends owing minus the fee. The debt check of a later borrow
      only refuses a positive debt, so it still passes. */
  lemma OverdueSettlementDrivesDebtNegative(s: State, caller: UserId, bk: BookRef, days: int,
                                            t0: Instant, t1: Instant, t2: Instant, next: BookRef)
    requires caller in s.users && s.users[caller].totalDebt == 0.0
    requires BorrowBook(s, caller, Some(bk), Some(days), t0).Ok?
    requires t1 > t0 + days * DAY
    requires s.books[bk].pricePerDay > 0.0
    ensures var r := Cycle(s, caller, bk, days, t0, t1, t2);
            && r.Ok?
            && var (s1, s2, s3) := r.value;
               var fee := s2.borrows[s.nextId].overdueAmount;
               && s2.borrows[s.nextId].status == Overdue
               && fee > 0.0
               && s3.users[caller].totalDebt == -fee
               && s3.users[caller].totalDebt < 0.0
               && !s3.users[caller].hasActiveBorrow
               && ValidateBorrow(s3, caller, Some(next)) != Err(HasDebt)
               && ValidateBorrow(s3, caller, Some(bk)).Ok?
  {
    var (s1, b) := BorrowBook(s, caller, Some(bk), Some(days), t0).value;
    var pid := s.nextId + 1;
    assert s1.payments[pid].borrow == s.nextId && s1.payments[pid].status == Pending;
    var (s2, b') := SubmitReturn(s1, caller, s.nextId, Some(t1)).value;
    assert s2.payments[pid].amount == b'.totalAmount;
    assert b'.overdueAmount == b'.overdueDays as real * b.pricePerDay * 0.5;
    assert b'.overdueAmount > 0.0 by {
      assert b'.overdueDays as real >= 1.0;
    }
  }

  /** Settling before returning, then returning late: the return re-bills the
      already Paid payment for cost plus fee, the fee never reaches the debt,
      and the payment can no longer be settled, so the fee is never collected. */
  lemma PrepaidOverdueFeeEscapesDebt(s: State, caller: UserId, bk: BookRef, days: int,
                                     t0: Instant, t1: Instant, t2: Instant)
    requires caller in s.users && s.users[caller].totalDebt == 0.0
    requires BorrowBook(s, caller, Some(bk), Some(days), t0).Ok?
    requires t2 > t0 + days * DAY
    requires s.books[bk].pricePerDay > 0.0
    ensures var (s1, b) := BorrowBook(s, caller, Some(bk), Some(days), t0).value;
            var pid := s.nextId + 1;
            && MarkPaymentAsPaid(s1, caller, pid, t1).Ok?
            && var s2 := MarkPaymentAsPaid(s1, caller, pid, t1).value.0;
               && s2.users[caller].totalDebt == 0.0
               && SubmitReturn(s2, caller, s.nextId, Some(t2)).Ok?
               && var (s3, b') := SubmitReturn(s2, caller, s.nextId, Some(t2)).value;
                  && b'.overdueAmount > 0.0
                  && s3.payments[pid].status == Paid
                  && s3.payments[pid].amount == b.totalCost + b'.overdueAmount
                  && s3.users[caller].totalDebt == 0.0
                  && MarkPaymentAsPaid(s3, caller, pid, t2) == Err(AlreadyPaid)
  {
    var (s1, b) := BorrowBook(s, caller, Some(bk), Some(days), t0).value;
    var pid := s.nextId + 1;
    var s2 := MarkPaymentAsPaid(s1, caller, pid, t1).value.0;
    assert s2.borrows == s1.borrows;
    var (s3, b') := SubmitReturn(s2, caller, s.nextId, Some(t2)).value;
    assert s3.payments[pid] == s2.payments[pid].(amount := b'.totalAmount);
    assert b'.overdueAmount > 0.0 by {
      assert b'.overdueDays as real >= 1.0;
    }
  }

  /** A worked case of the pricing rules: 5 days at 2.5 a day cost 12.5; a
      return one day and one millisecond late starts a second overdue day,
      so the fee is 2 * 2.5 * 0.5 = 2.5 and the total 15.0. */
  lemma WorkedOverdueExample(s: State, caller: UserId, bk: BookRef, t0: Instant)
    requires caller in s.users
    requires BorrowBook(s, caller, Some(bk), Some(5), t0).Ok?
    requires s.books[bk].pricePerDay == 2.5
    ensures var (s1, b) := BorrowBook(s, caller, Some(bk), Some(5), t0).value;
            && b.totalCost == 12.5
            && SubmitReturn(s1, caller, s.nextId, Some(t0 + 6 * DAY + 1)).Ok?
            && var b' := SubmitReturn(s1, caller, s.nextId, Some(t0 + 6 * DAY + 1)).value.1;
               && b'.status == Overdue && b'.overdueDays == 2
               && b'.overdueAmount == 2.5 && b'.totalAmount == 15.0
  {
    var (s1, b) := BorrowBook(s, caller, Some(bk), Some(5), t0).value;
    var b' := SubmitReturn(s1, caller, s.nextId, Some(t0 + 6 * DAY + 1)).value.1;
    OverdueDaysUnique(DAY + 1, 2);
  }
}
