/** The four collections the handlers read and write, and the invariant that
    ties them together. */
module Store {
  import opened Types
  import opened BookModel
  import opened UserModel
  import opened BorrowModel
  import opened PaymentModel

  /** The database: one map per collection, keyed by document id, and the
      allocator that hands out fresh ids for created documents. */
  datatype State = State(
    books: map<BookRef, Book>,
    users: map<UserId, User>,
    borrows: map<BorrowId, Borrow>,
    payments: map<PaymentId, Payment>,
    nextId: nat)

  /** The users who hold an Active borrow. */
  ghost function Holders(borrows: map<BorrowId, Borrow>): set<UserId> {
    set k | k in borrows && borrows[k].status == Active :: borrows[k].user
  }

  /** The books an Active borrow holds. */
  ghost function LentBooks(borrows: map<BorrowId, Borrow>): set<BookRef> {
    set k | k in borrows && borrows[k].status == Active :: borrows[k].book
  }

  /** The borrows some payment bills. */
  ghost function BilledBorrows(payments: map<PaymentId, Payment>): set<BorrowId> {
    set p | p in payments :: payments[p].borrow
  }

  /** Every stored document has an id below `nextId`. */
  ghost predicate IdsFresh(s: State) {
    && (forall k :: k in s.books ==> k < s.nextId)
    && (forall k :: k in s.borrows ==> k < s.nextId)
    && (forall k :: k in s.payments ==> k < s.nextId)
  }

  /** The schema's unique index on `bookId`. */
  ghost predicate BookIdsUnique(books: map<BookRef, Book>) {
    forall a, b :: a in books && b in books && books[a].bookId == books[b].bookId ==> a == b
  }

  /** Availability is the absence of a borrower, and a lent book is held by an
      Active borrow. */
  ghost predicate BooksConsistent(s: State) {
    forall k :: k in s.books ==>
      && AvailabilityConsistent(s.books[k])
      && (!s.books[k].isAvailable ==> k in LentBooks(s.borrows))
  }

  /** An Active borrow's book exists and names the borrower, and the borrower
      has an account. */
  ghost predicate LoansRecorded(s: State) {
    forall k :: k in s.borrows && s.borrows[k].status == Active ==>
      && s.borrows[k].book in s.books
      && s.books[s.borrows[k].book].currentBorrower == Some(s.borrows[k].user)
      && s.borrows[k].user in s.users
  }

  /** No book and no user is in two Active borrows. */
  ghost predicate OneLoanEach(s: State) {
    forall k1, k2 ::
      && k1 in s.borrows && k2 in s.borrows
      && s.borrows[k1].status == Active && s.borrows[k2].status == Active
      && (s.borrows[k1].book == s.borrows[k2].book || s.borrows[k1].user == s.borrows[k2].user)
      ==> k1 == k2
  }

  /** `hasActiveBorrow` says whether the user holds an Active borrow. */
  ghost predicate ActiveFlagsExact(s: State) {
    forall u :: u in s.users ==> (s.users[u].hasActiveBorrow <==> u in Holders(s.borrows))
  }

  /** Every stored borrow is well formed. */
  ghost predicate BorrowsWellFormed(s: State) {
    forall k :: k in s.borrows ==> WellFormed(s.borrows[k])
  }

  /** A payment bills an existing borrow of the same user for that borrow's
      `totalAmount`, and carries a payment date exactly when it is Paid. */
  ghost predicate PaymentsTrack(s: State) {
    forall p :: p in s.payments ==>
      && s.payments[p].borrow in s.borrows
      && s.payments[p].user == s.borrows[s.payments[p].borrow].user
      && s.payments[p].amount == s.borrows[s.payments[p].borrow].totalAmount
      && (s.payments[p].status == Paid <==> s.payments[p].paymentDate.Some?)
  }

  /** Borrows and payments are in one-to-one correspondence. */
  ghost predicate OnePaymentPerBorrow(s: State) {
    && (forall p1, p2 ::
          p1 in s.payments && p2 in s.payments && s.payments[p1].borrow == s.payments[p2].borrow
          ==> p1 == p2)
    && (forall k :: k in s.borrows ==> k in BilledBorrows(s.payments))
  }

  /** The invariant every handler preserves. */
  ghost predicate Valid(s: State) {
    && IdsFresh(s)
    && BookIdsUnique(s.books)
    && BooksConsistent(s)
    && LoansRecorded(s)
    && OneLoanEach(s)
    && ActiveFlagsExact(s)
    && BorrowsWellFormed(s)
    && PaymentsTrack(s)
    && OnePaymentPerBorrow(s)
  }

  /** The empty database with registered users who owe nothing. */
  function Empty(users: map<UserId, User>): State {
    State(map[], users, map[], map[], 0)
  }

  /** An empty catalog with fresh accounts is a valid starting point. */
  lemma EmptyValid(users: map<UserId, User>)
    requires forall u :: u in users ==> !users[u].hasActiveBorrow
    ensures Valid(Empty(users))
  {
  }

  /** Under the invariant a user holds at most one Active borrow, and holds
      one exactly when the account says so. */
  lemma HolderUnique(s: State, u: UserId, k: BorrowId)
    requires Valid(s) && u in s.users
    requires k in s.borrows && s.borrows[k].status == Active && s.borrows[k].user == u
    ensures s.users[u].hasActiveBorrow
    ensures forall k' :: k' in s.borrows && s.borrows[k'].status == Active && s.borrows[k'].user == u ==> k' == k
  {
    assert u in Holders(s.borrows);
  }
}
