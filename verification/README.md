# LMS lending core in Dafny

A model of the library management system's lending backend. It covers
borrowing a book for a number of days, returning it (late returns pay an
overdue fee) and settling the bill. It also covers the read-only views over
that state, and the two dialogs in the web client that preview the cost and
the overdue fee.

The database is one immutable `Store.State`:

- one map per collection (books, users, borrows, payments), keyed by document id;
- an allocator `nextId` that hands out fresh ids.

Each HTTP handler is one atomic transition. Handlers that write return
`Result<(State, output)>`. Their error values are the handler's 4xx answers:
`MissingField`, `DaysOutOfRange`, `NotFound`, `Forbidden`, `NotAvailable`,
`ActiveBorrowExists`, `HasDebt`, `AlreadyReturned` and `AlreadyPaid`. A
refused request therefore writes nothing. Read-only handlers return their
answer only.

Representation:

- Money is `real`, so the 0.5 overdue multiplier is exact.
- Instants are integer milliseconds, and a day is `DAY = 86400000`.
- Overdue days are the ceiling of the late interval over `DAY`. The contract
  states this as `(d - 1) * DAY < late <= d * DAY`.
- The authenticated caller is a parameter. The auth middleware guarantees the
  caller has an account, so `caller in s.users` is required.

Modules follow the source files:

- `Types`, `BookModel`, `UserModel`, `BorrowModel` and `PaymentModel` hold the
  records, the schema defaults and the Borrow pre-save hook.
- `BorrowController`, `PaymentController`, `BookController` and
  `DashboardController` hold the handlers.
- `BorrowModal` and `ReturnModal` model the client dialogs.
- `Ordering` models the `find(filter).sort({key: -1}).limit(n)` queries.
- `Store.Valid` is the cross-record invariant. `Lifecycle` proves that every
  writing handler preserves it.
- `Scenarios` holds multi-step facts.

The invariant `Store.Valid` says:

- a book is available exactly when it has no borrower, and a lent book is
  held by an Active borrow;
- `hasActiveBorrow` holds exactly for users with an Active borrow;
- no book and no user is in two Active borrows;
- every stored borrow's cost, due date and overdue fields agree with its
  status;
- borrows and payments correspond one to one, and a payment's amount is its
  borrow's `totalAmount`;
- a payment carries a payment date exactly when it is Paid;
- book ids are unique.

## Debt and billing

Two behaviours of the source follow from the handlers as written. They are
proved as lemmas rather than corrected.

- The debt goes negative (`Scenarios.OverdueSettlementDrivesDebtNegative`).
  `borrowBook` raises the debt by the cost alone. A late return re-bills the
  payment for cost plus fee but leaves the debt alone. Settling the payment
  then subtracts cost plus fee. An account that started debt-free ends at
  minus the fee. The later debt check only refuses a positive debt, so it
  still passes.
- A prepaid fee is never collected (`Scenarios.PrepaidOverdueFeeEscapesDebt`).
  A payment settled before the return is later re-billed with the overdue fee
  while already Paid. The fee never reaches the debt, and the payment cannot
  be settled again.

## Model

| member | source | states |
|---|---|---|
| BookModel.NewBook | LMS/backend/models/Book.js:3-33 | bookId, title, author and both prices are required (MissingField otherwise); a created book is available with no borrower, so availability matches the absence of a borrower |
| PaymentModel.NewPayment | LMS/backend/models/Payment.js:3-26 | a new payment references one user and one borrow, is Pending and has no payment date |
| BorrowModel.NewBorrow | LMS/backend/models/Borrow.js:3-55 | a new borrow has no return date and zero overdue days and fee, and keeps the given dates, period, prices and status |
| BorrowModel.OverdueDays | LMS/backend/models/Borrow.js:66-68 | the overdue day count is the least whole number of days covering a positive late interval, at least 1 |
| BorrowModel.OverdueDaysUnique | LMS/backend/models/Borrow.js:68 | the ceiling characterisation determines the day count uniquely |
| BorrowModel.OverdueWholeDays | LMS/backend/models/Borrow.js:68 | returning exactly k whole days late counts k overdue days |
| BorrowModel.PreSave | LMS/backend/models/Borrow.js:61-75 | the hook changes nothing unless the record is Returned with a return date; when it acts, a late return gets the ceiling day count and half the daily price per day, an on-time one keeps its overdue fields, and totalAmount becomes totalCost plus overdueAmount, nothing else changing |
| BorrowModel.PreSaveIdempotent | LMS/backend/models/Borrow.js:61-75 | applying the hook twice equals applying it once |
| BorrowModel.PreSaveKeepsWellFormed | LMS/backend/models/Borrow.js:62-72 | on any record whose fields agree with its status, including every record submitReturn writes, the hook is a no-op |
| Store.EmptyValid | LMS/backend/controllers/bookController.js:30-31 | an empty database, as before seeding, whose users hold no borrow satisfies the cross-record invariant |
| Store.HolderUnique | LMS/backend/controllers/borrowController.js:42-47 | under the invariant, a user with an Active borrow has hasActiveBorrow set and holds no other Active borrow |
| Ordering.InsertDesc | LMS/backend/controllers/borrowController.js:256 | inserting into a key-descending listing keeps it descending, adds exactly the new id and keeps ids distinct |
| Ordering.SelectDesc | LMS/backend/controllers/borrowController.js:251-256 | a filtered, key-descending query lists exactly the records that pass the filter, each once, latest key first |
| Ordering.Limit | LMS/backend/controllers/dashboardController.js:39 | a limit keeps the first min(n, length) entries of the listing |
| Ordering.LimitKeepsLatest | LMS/backend/controllers/dashboardController.js:36-39 | every record a limit drops has a key no later than every record it keeps |
| BorrowController.ValidateBorrow | LMS/backend/controllers/borrowController.js:16-55 | the checks run in order and the first failure is the answer (missing id, NotFound, NotAvailable, ActiveBorrowExists, HasDebt); it succeeds exactly when the book exists and is available and the caller has no active borrow and no positive debt |
| BorrowController.CalculateCost | LMS/backend/controllers/borrowController.js:84-122 | missing or zero days and out-of-range days are refused before the book lookup; NotFound exactly for an absent book; the quote is daily price times days with the 30-day maximum |
| BorrowController.BorrowBook | LMS/backend/controllers/borrowController.js:144-225 | refuses missing fields, days outside 1..30 and every validateBorrow condition with validateBorrow's error; on success it stores one Active borrow under a fresh id with due date N days on, a snapshot of the daily price and cost equal to total = price times N; the book is lent to the caller, the caller is flagged and owes exactly the cost more, and one Pending payment of the cost is created, no other record changing |
| BorrowController.GetBorrowSummary | LMS/backend/controllers/borrowController.js:278-295 | answers the record exactly when it exists and belongs to the caller, NotFound for an absent one and Forbidden for another user's |
| BorrowController.ReturnFields | LMS/backend/controllers/borrowController.js:350-365 | an on-time return sets the date and Returned only; a late one sets Overdue, the ceiling day count, half the daily price per day and cost plus fee, leaving the other fields |
| BorrowController.Rebill | LMS/backend/controllers/borrowController.js:380-385 | the payments linked to the returned borrow get the new amount, every other payment is unchanged |
| BorrowController.SubmitReturn | LMS/backend/controllers/borrowController.js:319-385 | refuses a missing date, an unknown borrow, another user's borrow (Forbidden) and a non-Active borrow in that order; on success an on-time return is Returned with the stored overdue fields, a late one Overdue with at least one day, half the daily price per day and total cost plus fee; the book is freed, the flag cleared, the debt unchanged and the linked payment re-billed for the new total |
| BorrowController.GetActiveBorrows | LMS/backend/controllers/borrowController.js:251-256 | lists exactly the caller's Active borrows, each once, latest borrow date first |
| BorrowController.GetBorrowHistory | LMS/backend/controllers/borrowController.js:411-416 | lists exactly the caller's Returned and Overdue borrows, each once, latest return date first |
| PaymentController.MarkPaymentAsPaid | LMS/backend/controllers/paymentController.js:38-71 | NotFound, Forbidden and AlreadyPaid in that order, succeeding exactly for the caller's Pending payment; it becomes Paid with a payment date, and its amount moves from the caller's debt to the balance so their sum is conserved, nothing else changing |
| PaymentController.GetPaymentHistory | LMS/backend/controllers/paymentController.js:8-16 | lists exactly the caller's payments, each once, newest first |
| BookController.SeedWellFormed | LMS/backend/controllers/bookController.js:4-25 | the seed list has 20 entries with pairwise distinct book ids, each a valid new book |
| BookController.SeedBook | LMS/backend/controllers/bookController.js:4-25 | a seeded book carries its entry's fields and is available with no borrower |
| BookController.InsertMany | LMS/backend/controllers/bookController.js:32 | inserting a list stores exactly one book per entry under consecutive fresh ids |
| BookController.SeedCatalog | LMS/backend/controllers/bookController.js:4-32 | the seeded catalog has 20 books, all available with no borrower, with unique book ids |
| BookController.InitializeBooks | LMS/backend/controllers/bookController.js:28-38 | a non-empty catalog is left alone; an empty one receives exactly the 20 seed books, nothing else changing |
| BookController.InitializeBooksIdempotent | LMS/backend/controllers/bookController.js:28-38 | initializing twice is initializing once |
| BookController.GetAllBooks | LMS/backend/controllers/bookController.js:43-50 | answers the whole catalog |
| BookController.GetAvailableBooks | LMS/backend/controllers/bookController.js:65-67 | answers exactly the books whose isAvailable is set |
| BookController.GetBookById | LMS/backend/controllers/bookController.js:87-96 | NotFound exactly for an absent id, the stored book otherwise |
| DashboardController.GetDashboardSummary | LMS/backend/controllers/dashboardController.js:8-58 | counts the caller's Active, Returned-or-Overdue and Overdue borrows, sums the caller's Pending payments, copies balance, debt and flag, and lists the caller's min(5, n) latest borrows by borrow date, each once, no dropped borrow being later than a listed one |
| DashboardController.StatusCountsPartition | LMS/backend/controllers/dashboardController.js:13-30 | active plus history counts equal the caller's number of borrows, and the overdue count is at most the history count |
| DashboardController.ActiveCountMatchesFlag | LMS/backend/controllers/dashboardController.js:13-16 | under the invariant the active count is 1 when the caller's flag is set and 0 otherwise |
| DashboardController.NothingPendingNothingDue | LMS/backend/controllers/dashboardController.js:24 | with no Pending payment the amount due is 0 |
| DashboardController.SumAmountsRemove | LMS/backend/controllers/dashboardController.js:24 | the sum of amounts splits off any one payment, so the fold order does not matter |
| BorrowModal.InitialForm | LMS/frontend/src/components/BorrowModal.jsx:6-7 | the dialog opens at 1 day and one day's price |
| BorrowModal.HandleDaysChange | LMS/frontend/src/components/BorrowModal.jsx:10-14 | non-numeric input becomes 0 days costing 0; the preview is always daily price times days |
| BorrowModal.HandleBorrow | LMS/frontend/src/components/BorrowModal.jsx:16-38 | days outside 1..30 are refused locally; the borrow request is sent only after validate succeeds, and a success is exactly borrowBook's result |
| BorrowModal.ClientRangeIsServerRange | LMS/frontend/src/components/BorrowModal.jsx:17-20 | the dialog accepts a day count exactly when borrowBook's field and range checks do |
| BorrowModal.HandleBorrowMatchesServer | LMS/frontend/src/components/BorrowModal.jsx:24-38 | for an in-range count, validate-then-borrow succeeds exactly when borrowBook does and fails with borrowBook's error, never in the borrow step |
| BorrowModal.PreviewCostMatchesServer | LMS/frontend/src/components/BorrowModal.jsx:13 | the previewed cost equals the cost calculateCost quotes and the cost the server records |
| ReturnModal.CalculateOverdue | LMS/frontend/src/components/ReturnModal.jsx:9-20 | nothing for a date on or before the due date; otherwise the ceiling day count, at least 1, and half the daily price per day |
| ReturnModal.PreviewTotal | LMS/frontend/src/components/ReturnModal.jsx:23 | the previewed total exceeds the cost by exactly the previewed fee |
| ReturnModal.HandleReturn | LMS/frontend/src/components/ReturnModal.jsx:25-36 | an empty date sends nothing; otherwise the answer is submitReturn's |
| ReturnModal.PreviewMatchesReturn | LMS/frontend/src/components/ReturnModal.jsx:9-23 | for a well-formed borrow (every stored borrow under the invariant) the previewed days, fee and total equal those submitReturn stores for the same dates |
| Lifecycle.BorrowPreservesValid | LMS/backend/controllers/borrowController.js:197-225 | a borrow of an available book for 1..30 days by a caller with no active borrow and no positive debt succeeds and keeps the cross-record invariant |
| Lifecycle.ReturnedRecordWellFormed | LMS/backend/controllers/borrowController.js:350-367 | a returned record's fields agree with its status, and the save hook leaves it as written |
| Lifecycle.ReturnPreservesValid | LMS/backend/controllers/borrowController.js:350-385 | a return of the caller's Active borrow with a date succeeds and keeps the cross-record invariant |
| Lifecycle.PayPreservesValid | LMS/backend/controllers/paymentController.js:62-71 | settling the caller's Pending payment succeeds and keeps the cross-record invariant |
| Lifecycle.InitializePreservesValid | LMS/backend/controllers/bookController.js:28-38 | seeding keeps the cross-record invariant |
| Lifecycle.AddLoanSets | LMS/backend/controllers/borrowController.js:197-215 | a new Active borrow adds exactly its book to the lent books and its user to the holders |
| Lifecycle.CloseLoanSets | LMS/backend/controllers/borrowController.js:350-377 | closing a book's and user's only Active borrow removes exactly them from the lent books and holders |
| Lifecycle.AddBillSets | LMS/backend/controllers/borrowController.js:220-225 | a new payment bills exactly one more borrow |
| Lifecycle.SameBillSets | LMS/backend/controllers/borrowController.js:381-385 | payments that keep their links bill the same borrows |
| Lifecycle.AvailableMeansUnheld | LMS/backend/controllers/borrowController.js:168-173 | under the invariant an available book is held by no Active borrow |
| Scenarios.BorrowLocksBookAndUser | LMS/backend/controllers/borrowController.js:209-216 | after a borrow the book leaves the available list, nobody can validate it, and the borrower can validate no book |
| Scenarios.ReturnReleasesBookAndUser | LMS/backend/controllers/borrowController.js:369-378 | after a return the book is available again, the flag is clear, the debt is unchanged, and the borrower may borrow again exactly when they owe nothing |
| Scenarios.ReturnTwiceFails | LMS/backend/controllers/borrowController.js:343-348 | a second return of the same borrow is always refused, AlreadyReturned when a date is given |
| Scenarios.PayTwiceFails | LMS/backend/controllers/paymentController.js:55-60 | a second settlement of the same payment is AlreadyPaid |
| Scenarios.ReturnKeepsSettlement | LMS/backend/controllers/borrowController.js:381-385 | a return changes no payment's status, payment date, user or borrow, so only settlement sets a payment date |
| Scenarios.OnTimeReturnBillsCost | LMS/backend/controllers/borrowController.js:350-365 | under the invariant an on-time return is Returned with no overdue days or fee and bills exactly the cost |
| Scenarios.OverdueSettlementDrivesDebtNegative | LMS/backend/controllers/paymentController.js:69-70 | from zero debt, borrowing, returning late and settling leaves the debt at minus the positive overdue fee, and the debt check of a later borrow passes |
| Scenarios.PrepaidOverdueFeeEscapesDebt | LMS/backend/controllers/borrowController.js:380-385 | settling before a late return leaves the payment Paid but re-billed for cost plus a positive fee, the debt at zero, and a further settlement refused |
| Scenarios.WorkedOverdueExample | LMS/backend/controllers/borrowController.js:358-363 | 5 days at 2.5 cost 12.5; returning a day and a millisecond late counts 2 overdue days, a fee of 2.5 and a total of 15.0 |

## Left out

- HTTP plumbing is not modelled: status codes, JSON bodies, routes, server mounting, CORS and cookies. Handlers are functions returning a `Result`.
- Mongoose persistence and `populate` joins are not modelled. Listings answer record ids instead of populated documents.
- Each handler is one atomic step. The source makes several separate `await`ed saves, and two requests can race between the availability check and the update. Concurrency is out of scope.
- The auth middleware is not modelled. The caller id is a parameter, and the caller is required to have an account. A missing account would make the source fail with a 500.
- The catch-all 500 branches and the logging are left out.
- Prices are exact reals. IEEE-754 rounding and the `toFixed(2)` strings in the answers are not modelled.
- Calendar and DST effects are left out. A due date is `borrowDate + N * DAY`, whereas the source uses `setDate`, and `new Date("YYYY-MM-DD")` parsing is not modelled. The client's due-date display is not modelled either.
- The day count is an `int`. JavaScript coercion of `numberOfDays` (strings, fractions, `parseInt` versus the raw value) is left out. Only the truthiness of 0 is kept: 0 counts as missing.
- BorrowController.SubmitReturn: when the borrow's book no longer exists, the source fails with a 500 after saving the borrow. The model skips the book update instead. Under `Store.Valid` the book always exists.
- BorrowController.SubmitReturn: the source re-bills the first payment `findOne` returns. The model re-bills every payment linked to the borrow. Under `Store.Valid` there is exactly one.
- BorrowModel.ReturnDateOf: a record without a return date sorts as instant 0. Every record in the history listing has one.
- Ordering.SelectDesc: the order among records with equal sort keys is left unspecified, as in the database.
- `models/User.js` is not part of this model. The account record keeps only the three fields the handlers use: `totalDebt`, `balance` and `hasActiveBorrow`.
- The pure rendering pages (dashboard, history, active borrows, books, profile, navigation bar, payment history) are not modelled. They only display and count.
- The client's toasts, loading flags and the close and success callbacks are not modelled.
