/** The borrow -> return -> pay lifecycle across handlers: every handler keeps
    the store invariant. Each handler's effect is first captured as a step
    relation between the states before and after; the invariant is then
    carried across the step one conjunct at a time. */
module Lifecycle {
  import opened Types
  import opened BookModel
  import opened UserModel
  import opened BorrowModel
  import opened PaymentModel
  import opened Store
  import opened BorrowController
  import opened PaymentController
  import opened BookController

  // ---------------------------------------------------------------------
  // The derived sets under single updates
  // ---------------------------------------------------------------------

  /** Storing a new Active borrow adds its book and its user. */
  lemma AddLoanSets(borrows: map<BorrowId, Borrow>, id: BorrowId, b: Borrow)
    requires id !in borrows && b.status == Active
    ensures LentBooks(borrows[id := b]) == LentBooks(borrows) + {b.book}
    ensures Holders(borrows[id := b]) == Holders(borrows) + {b.user}
  {
    var borrows' := borrows[id := b];
    forall x | x in LentBooks(borrows') ensures x in LentBooks(borrows) + {b.book} {
      var k :| k in borrows' && borrows'[k].status == Active && borrows'[k].book == x;
      if k != id { assert borrows[k] == borrows'[k]; }
    }
    forall x | x in LentBooks(borrows) ensures x in LentBooks(borrows') {
      var k :| k in borrows && borrows[k].status == Active && borrows[k].book == x;
      assert borrows'[k] == borrows[k];
    }
    assert borrows'[id].book == b.book;
    forall x | x in Holders(borrows') ensures x in Holders(borrows) + {b.user} {
      var k :| k in borrows' && borrows'[k].status == Active && borrows'[k].user == x;
      if k != id { assert borrows[k] == borrows'[k]; }
    }
    forall x | x in Holders(borrows) ensures x in Holders(borrows') {
      var k :| k in borrows && borrows[k].status == Active && borrows[k].user == x;
      assert borrows'[k] == borrows[k];
    }
    assert borrows'[id].user == b.user;
  }

  /** Closing the only Active borrow of a book and of a user removes both. */
  lemma CloseLoanSets(borrows: map<BorrowId, Borrow>, id: BorrowId, b': Borrow)
    requires id in borrows && borrows[id].status == Active && b'.status != Active
    requires forall k :: k in borrows && k != id && borrows[k].status == Active ==>
               borrows[k].book != borrows[id].book && borrows[k].user != borrows[id].user
    ensures LentBooks(borrows[id := b']) == LentBooks(borrows) - {borrows[id].book}
    ensures Holders(borrows[id := b']) == Holders(borrows) - {borrows[id].user}
  {
    var borrows' := borrows[id := b'];
    forall x | x in LentBooks(borrows') ensures x in LentBooks(borrows) - {borrows[id].book} {
      var k :| k in borrows' && borrows'[k].status == Active && borrows'[k].book == x;
      assert k != id && borrows[k] == borrows'[k];
    }
    forall x | x in LentBooks(borrows) - {borrows[id].book} ensures x in LentBooks(borrows') {
      var k :| k in borrows && borrows[k].status == Active && borrows[k].book == x;
      assert k != id && borrows'[k] == borrows[k];
    }
    forall x | x in Holders(borrows') ensures x in Holders(borrows) - {borrows[id].user} {
      var k :| k in borrows' && borrows'[k].status == Active && borrows'[k].user == x;
      assert k != id && borrows[k] == borrows'[k];
    }
    forall x | x in Holders(borrows) - {borrows[id].user} ensures x in Holders(borrows') {
      var k :| k in borrows && borrows[k].status == Active && borrows[k].user == x;
      assert k != id && borrows'[k] == borrows[k];
    }
  }

  /** A new payment bills one more borrow. */
  lemma AddBillSets(payments: map<PaymentId, Payment>, pid: PaymentId, p: Payment)
    requires pid !in payments
    ensures BilledBorrows(payments[pid := p]) == BilledBorrows(payments) + {p.borrow}
  {
    var payments' := payments[pid := p];
    forall x | x in BilledBorrows(payments') ensures x in BilledBorrows(payments) + {p.borrow} {
      var q :| q in payments' && payments'[q].borrow == x;
      if q != pid { assert payments[q] == payments'[q]; }
    }
    forall x | x in BilledBorrows(payments) ensures x in BilledBorrows(payments') {
      var q :| q in payments && payments[q].borrow == x;
      assert payments'[q] == payments[q];
    }
    assert payments'[pid].borrow == p.borrow;
  }

  /** Payments that keep their links bill the same borrows. */
  lemma SameBillSets(payments: map<PaymentId, Payment>, payments': map<PaymentId, Payment>)
    requires payments'.Keys == payments.Keys
    requires forall q :: q in payments ==> payments'[q].borrow == payments[q].borrow
    ensures BilledBorrows(payments') == BilledBorrows(payments)
  {
    forall x | x in BilledBorrows(payments') ensures x in BilledBorrows(payments) {
      var q :| q in payments' && payments'[q].borrow == x;
      assert payments[q].borrow == x;
    }
    forall x | x in BilledBorrows(payments) ensures x in BilledBorrows(payments') {
      var q :| q in payments && payments[q].borrow == x;
      assert payments'[q].borrow == x;
    }
  }

  /** Under the invariant an Active borrow's book is lent out, so an
      available book is held by no Active borrow. */
  lemma AvailableMeansUnheld(s: State, bk: BookRef)
    requires BooksConsistent(s) && LoansRecorded(s)
    requires bk in s.books && s.books[bk].isAvailable
    ensures forall k :: k in s.borrows && s.borrows[k].status == Active ==> s.borrows[k].book != bk
  {
    forall k | k in s.borrows && s.borrows[k].status == Active
      ensures s.borrows[k].book != bk
    {
      assert AvailabilityConsistent(s.books[s.borrows[k].book]);
    }
  }

  // ---------------------------------------------------------------------
  // Borrow
  // ---------------------------------------------------------------------

  /** The effect of a successful `borrowBook`: a fresh Active borrow of an
      available book by a user without one, its payment, the book lent and
      the account flagged. */
  ghost predicate LendStep(s: State, s': State, caller: UserId, bk: BookRef, b: Borrow) {
    && caller in s.users && bk in s.books
    && s.books[bk].isAvailable && !s.users[caller].hasActiveBorrow
    && b.user == caller && b.book == bk && b.status == Active && WellFormed(b)
    && s'.borrows == s.borrows[s.nextId := b]
    && s'.payments == s.payments[s.nextId + 1 := NewPayment(caller, s.nextId, b.totalCost, b.borrowDate)]
    && s'.nextId == s.nextId + 2
    && s'.books == s.books[bk := s.books[bk].(isAvailable := false, currentBorrower := Some(caller))]
    && caller in s'.users && s'.users == s.users[caller := s'.users[caller]]
    && s'.users[caller].hasActiveBorrow
  }

  lemma LendKeepsIds(s: State, s': State, caller: UserId, bk: BookRef, b: Borrow)
    requires LendStep(s, s', caller, bk, b) && IdsFresh(s)
    ensures IdsFresh(s') && BookIdsUnique(s'.books) == BookIdsUnique(s.books)
  {
    assert forall k :: k in s'.books ==> k in s.books && s'.books[k].bookId == s.books[k].bookId;
  }

  lemma LendKeepsBooks(s: State, s': State, caller: UserId, bk: BookRef, b: Borrow)
    requires LendStep(s, s', caller, bk, b) && IdsFresh(s) && BooksConsistent(s) && LoansRecorded(s)
    ensures BooksConsistent(s') && LoansRecorded(s')
  {
    AddLoanSets(s.borrows, s.nextId, b);
    AvailableMeansUnheld(s, bk);
    forall k | k in s'.borrows && s'.borrows[k].status == Active
      ensures s'.borrows[k].book in s'.books
      ensures s'.books[s'.borrows[k].book].currentBorrower == Some(s'.borrows[k].user)
      ensures s'.borrows[k].user in s'.users
    {
      if k != s.nextId {
        assert s'.borrows[k] == s.borrows[k];
      }
    }
  }

  lemma LendKeepsLoans(s: State, s': State, caller: UserId, bk: BookRef, b: Borrow)
    requires LendStep(s, s', caller, bk, b) && IdsFresh(s)
    requires BooksConsistent(s) && LoansRecorded(s) && OneLoanEach(s) && ActiveFlagsExact(s)
    ensures OneLoanEach(s') && ActiveFlagsExact(s')
  {
    AddLoanSets(s.borrows, s.nextId, b);
    AvailableMeansUnheld(s, bk);
    assert caller !in Holders(s.borrows);
    assert forall k :: k in s.borrows && s.borrows[k].status == Active ==> s.borrows[k].user != caller;
  }

  lemma LendKeepsShapes(s: State, s': State, caller: UserId, bk: BookRef, b: Borrow)
    requires LendStep(s, s', caller, bk, b) && BorrowsWellFormed(s)
    ensures BorrowsWellFormed(s')
  {
  }

  lemma LendKeepsBills(s: State, s': State, caller: UserId, bk: BookRef, b: Borrow)
    requires LendStep(s, s', caller, bk, b) && IdsFresh(s) && PaymentsTrack(s)
    ensures PaymentsTrack(s')
  {
    forall p | p in s'.payments
      ensures s'.payments[p].borrow in s'.borrows
      ensures s'.payments[p].user == s'.borrows[s'.payments[p].borrow].user
      ensures s'.payments[p].amount == s'.borrows[s'.payments[p].borrow].totalAmount
      ensures s'.payments[p].status == Paid <==> s'.payments[p].paymentDate.Some?
    {
      if p != s.nextId + 1 {
        var k := s.payments[p].borrow;
        assert s'.payments[p] == s.payments[p];
        assert k < s.nextId && s'.borrows[k] == s.borrows[k];
      }
    }
  }

  lemma LendKeepsPairing(s: State, s': State, caller: UserId, bk: BookRef, b: Borrow)
    requires LendStep(s, s', caller, bk, b) && IdsFresh(s) && PaymentsTrack(s) && OnePaymentPerBorrow(s)
    ensures OnePaymentPerBorrow(s')
  {
    var id := s.nextId;
    AddBillSets(s.payments, id + 1, NewPayment(caller, id, b.totalCost, b.borrowDate));
    assert forall p :: p in s.payments ==> s.payments[p].borrow < id;
  }

  /** `borrowBook` of an available book for 1..30 days by a caller with no
      active borrow and no debt succeeds and keeps the store invariant. */
  lemma BorrowPreservesValid(s: State, caller: UserId, bookId: Option<BookRef>, numberOfDays: Option<int>, now: Instant)
    requires Valid(s) && caller in s.users
    requires bookId.Some? && MayBorrow(s, caller, bookId.value)
    requires numberOfDays.Some? && 1 <= numberOfDays.value <= MAX_BORROW_DAYS
    ensures BorrowBook(s, caller, bookId, numberOfDays, now).Ok?
    ensures Valid(BorrowBook(s, caller, bookId, numberOfDays, now).value.0)
  {
    var (s', b) := BorrowBook(s, caller, bookId, numberOfDays, now).value;
    var bk := bookId.value;
    assert LendStep(s, s', caller, bk, b);
    LendKeepsIds(s, s', caller, bk, b);
    LendKeepsBooks(s, s', caller, bk, b);
    LendKeepsLoans(s, s', caller, bk, b);
    LendKeepsShapes(s, s', caller, bk, b);
    LendKeepsBills(s, s', caller, bk, b);
    LendKeepsPairing(s, s', caller, bk, b);
  }

  // ---------------------------------------------------------------------
  // Return
  // ---------------------------------------------------------------------

  /** A returned record satisfies the record invariant, and the pre-save hook
      leaves it as `submitReturn` wrote it. */
  lemma ReturnedRecordWellFormed(b: Borrow, t: Instant)
    requires WellFormed(b) && b.status == Active
    ensures WellFormed(PreSave(ReturnFields(b, t)))
    ensures PreSave(ReturnFields(b, t)) == ReturnFields(b, t)
  {
  }

  /** The effect of a successful `submitReturn`: the caller's Active borrow
      closed, its book freed, the flag cleared, the payment re-billed. */
  ghost predicate CloseStep(s: State, s': State, caller: UserId, id: BorrowId, b': Borrow) {
    && caller in s.users && id in s.borrows
    && s.borrows[id].user == caller && s.borrows[id].status == Active
    && b'.status != Active && WellFormed(b')
    && b'.user == caller && b'.book == s.borrows[id].book
    && s'.borrows == s.borrows[id := b']
    && (s.borrows[id].book in s.books ==>
          s'.books == s.books[s.borrows[id].book := s.books[s.borrows[id].book].(
                                isAvailable := true, currentBorrower := None)])
    && (s.borrows[id].book !in s.books ==> s'.books == s.books)
    && s'.users == s.users[caller := s.users[caller].(hasActiveBorrow := false)]
    && s'.payments == Rebill(s.payments, id, b'.totalAmount)
    && s'.nextId == s.nextId
  }

  /** Under the invariant no other Active borrow shares the closed one's book
      or user. */
  lemma CloseIsolated(s: State, id: BorrowId)
    requires OneLoanEach(s) && id in s.borrows && s.borrows[id].status == Active
    ensures forall k :: k in s.borrows && k != id && s.borrows[k].status == Active ==>
              s.borrows[k].book != s.borrows[id].book && s.borrows[k].user != s.borrows[id].user
  {
  }

  lemma CloseKeepsIds(s: State, s': State, caller: UserId, id: BorrowId, b': Borrow)
    requires CloseStep(s, s', caller, id, b') && IdsFresh(s) && BookIdsUnique(s.books)
    ensures IdsFresh(s') && BookIdsUnique(s'.books)
  {
    assert forall k :: k in s'.books ==> k in s.books && s'.books[k].bookId == s.books[k].bookId;
  }

  lemma CloseKeepsBooks(s: State, s': State, caller: UserId, id: BorrowId, b': Borrow)
    requires CloseStep(s, s', caller, id, b') && BooksConsistent(s) && LoansRecorded(s) && OneLoanEach(s)
    ensures BooksConsistent(s') && LoansRecorded(s')
  {
    CloseIsolated(s, id);
    CloseLoanSets(s.borrows, id, b');
    forall k | k in s'.borrows && s'.borrows[k].status == Active
      ensures s'.borrows[k].book in s'.books
      ensures s'.books[s'.borrows[k].book].currentBorrower == Some(s'.borrows[k].user)
      ensures s'.borrows[k].user in s'.users
    {
      assert k != id && s'.borrows[k] == s.borrows[k];
    }
  }

  lemma CloseKeepsLoans(s: State, s': State, caller: UserId, id: BorrowId, b': Borrow)
    requires CloseStep(s, s', caller, id, b') && OneLoanEach(s) && ActiveFlagsExact(s)
    ensures OneLoanEach(s') && ActiveFlagsExact(s')
  {
    CloseIsolated(s, id);
    CloseLoanSets(s.borrows, id, b');
  }

  lemma CloseKeepsShapes(s: State, s': State, caller: UserId, id: BorrowId, b': Borrow)
    requires CloseStep(s, s', caller, id, b') && BorrowsWellFormed(s)
    ensures BorrowsWellFormed(s')
  {
  }

  lemma CloseKeepsBills(s: State, s': State, caller: UserId, id: BorrowId, b': Borrow)
    requires CloseStep(s, s', caller, id, b') && PaymentsTrack(s)
    ensures PaymentsTrack(s')
  {
    forall p | p in s'.payments
      ensures s'.payments[p].borrow in s'.borrows
      ensures s'.payments[p].user == s'.borrows[s'.payments[p].borrow].user
      ensures s'.payments[p].amount == s'.borrows[s'.payments[p].borrow].totalAmount
      ensures s'.payments[p].status == Paid <==> s'.payments[p].paymentDate.Some?
    {
      if s.payments[p].borrow != id {
        assert s'.payments[p] == s.payments[p];
      }
    }
  }

  lemma CloseKeepsPairing(s: State, s': State, caller: UserId, id: BorrowId, b': Borrow)
    requires CloseStep(s, s', caller, id, b') && OnePaymentPerBorrow(s)
    ensures OnePaymentPerBorrow(s')
  {
    SameBillSets(s.payments, s'.payments);
  }

  /** `submitReturn` of the caller's Active borrow with a date succeeds and
      keeps the store invariant. */
  lemma ReturnPreservesValid(s: State, caller: UserId, borrowId: BorrowId, returnDate: Option<Instant>)
    requires Valid(s) && caller in s.users && returnDate.Some?
    requires borrowId in s.borrows && s.borrows[borrowId].user == caller
    requires s.borrows[borrowId].status == Active
    ensures SubmitReturn(s, caller, borrowId, returnDate).Ok?
    ensures Valid(SubmitReturn(s, caller, borrowId, returnDate).value.0)
  {
    var (s', b') := SubmitReturn(s, caller, borrowId, returnDate).value;
    ReturnedRecordWellFormed(s.borrows[borrowId], returnDate.value);
    assert CloseStep(s, s', caller, borrowId, b');
    CloseKeepsIds(s, s', caller, borrowId, b');
    CloseKeepsBooks(s, s', caller, borrowId, b');
    CloseKeepsLoans(s, s', caller, borrowId, b');
    CloseKeepsShapes(s, s', caller, borrowId, b');
    CloseKeepsBills(s, s', caller, borrowId, b');
    CloseKeepsPairing(s, s', caller, borrowId, b');
  }

  // ---------------------------------------------------------------------
  // Pay
  // ---------------------------------------------------------------------

  /** The effect of a successful `markPaymentAsPaid`: one Pending payment
      becomes Paid with a date, and only the payer's money fields move. */
  ghost predicate SettleStep(s: State, s': State, caller: UserId, pid: PaymentId) {
    && caller in s.users && pid in s.payments && s.payments[pid].status == Pending
    && pid in s'.payments && s'.payments[pid].paymentDate.Some?
    && s'.payments == s.payments[pid := s.payments[pid].(status := Paid, paymentDate := s'.payments[pid].paymentDate)]
    && s'.users.Keys == s.users.Keys
    && (forall u :: u in s.users ==> s'.users[u].hasActiveBorrow == s.users[u].hasActiveBorrow)
    && s'.books == s.books && s'.borrows == s.borrows && s'.nextId == s.nextId
  }

  lemma SettleKeepsLoans(s: State, s': State, caller: UserId, pid: PaymentId)
    requires SettleStep(s, s', caller, pid) && LoansRecorded(s) && ActiveFlagsExact(s)
    ensures LoansRecorded(s') && ActiveFlagsExact(s')
  {
  }

  lemma SettleKeepsBills(s: State, s': State, caller: UserId, pid: PaymentId)
    requires SettleStep(s, s', caller, pid) && PaymentsTrack(s)
    ensures PaymentsTrack(s')
  {
    forall p | p in s'.payments
      ensures s'.payments[p].borrow in s'.borrows
      ensures s'.payments[p].user == s'.borrows[s'.payments[p].borrow].user
      ensures s'.payments[p].amount == s'.borrows[s'.payments[p].borrow].totalAmount
      ensures s'.payments[p].status == Paid <==> s'.payments[p].paymentDate.Some?
    {
      if p != pid {
        assert s'.payments[p] == s.payments[p];
      }
    }
  }

  lemma SettleKeepsPairing(s: State, s': State, caller: UserId, pid: PaymentId)
    requires SettleStep(s, s', caller, pid) && OnePaymentPerBorrow(s)
    ensures OnePaymentPerBorrow(s')
  {
    SameBillSets(s.payments, s'.payments);
  }

  /** `markPaymentAsPaid` of the caller's Pending payment succeeds and keeps
      the store invariant. */
  lemma PayPreservesValid(s: State, caller: UserId, paymentId: PaymentId, now: Instant)
    requires Valid(s) && caller in s.users
    requires paymentId in s.payments && s.payments[paymentId].user == caller
    requires s.payments[paymentId].status == Pending
    ensures MarkPaymentAsPaid(s, caller, paymentId, now).Ok?
    ensures Valid(MarkPaymentAsPaid(s, caller, paymentId, now).value.0)
  {
    var (s', p') := MarkPaymentAsPaid(s, caller, paymentId, now).value;
    assert SettleStep(s, s', caller, paymentId);
    SettleKeepsLoans(s, s', caller, paymentId);
    SettleKeepsBills(s, s', caller, paymentId);
    SettleKeepsPairing(s, s', caller, paymentId);
  }

  // ---------------------------------------------------------------------
  // Seed
  // ---------------------------------------------------------------------

  /** `initializeBooks` keeps the store invariant. */
  lemma InitializePreservesValid(s: State)
    requires Valid(s)
    ensures Valid(InitializeBooks(s))
  {
    var s' := InitializeBooks(s);
    if |s.books| == 0 {
      SeedCatalog(s.nextId);
      assert forall k :: k in s.borrows ==> s.borrows[k].status != Active;
      assert LentBooks(s.borrows) == {};
    }
  }
}
