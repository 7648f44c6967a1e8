/** Identifiers, constants and the error vocabulary shared by every controller. */
module Types {

  /** Document identifiers (MongoDB ObjectIds), one key space per collection. */
  type UserId = nat
  type BookRef = nat
  type BorrowId = nat
  type PaymentId = nat

  /** An instant as a JavaScript `Date` holds it: milliseconds since the epoch. */
  type Instant = int

  /** One day in milliseconds, `1000 * 60 * 60 * 24`. */
  const DAY: int := 86400000

  /** The longest borrow period the server and the client accept. */
  const MAX_BORROW_DAYS: int := 30

  /** The overdue fee per late day, as a fraction of the daily price. */
  const OVERDUE_RATE: real := 0.5

  datatype Option<T> = None | Some(value: T)

  /** The reasons a handler answers with a 4xx status instead of doing its work. */
  datatype Error =
    | MissingField        // 400: a required request field is absent or falsy
    | DaysOutOfRange      // 400: numberOfDays outside 1..MAX_BORROW_DAYS
    | NotFound            // 404: the referenced document does not exist
    | Forbidden           // 403: the caller does not own the referenced document
    | NotAvailable        // 400: the book is lent out
    | ActiveBorrowExists  // 400: the caller already holds a book
    | HasDebt             // 400: the caller's totalDebt is positive
    | AlreadyReturned     // 400: the borrow is no longer Active
    | AlreadyPaid         // 400: the payment is already Paid

  datatype Result<T> = Ok(value: T) | Err(error: Error)
}
