/** The Payment document (models/Payment.js). */
module PaymentModel {
  import opened Types

  datatype PaymentStatus = Pending | Paid

  datatype Payment = Payment(
    user: UserId,
    borrow: BorrowId,
    amount: real,
    status: PaymentStatus,
    paymentDate: Option<Instant>,
    createdAt: Instant)

  /** `Payment.create` with the fields a caller gives; status and paymentDate
      take their schema defaults, createdAt is the creation instant. */
  function NewPayment(user: UserId, borrow: BorrowId, amount: real, now: Instant): (p: Payment)
    ensures p.user == user && p.borrow == borrow && p.amount == amount && p.createdAt == now
    ensures p.status == Pending && p.paymentDate == None
  {
    Payment(user, borrow, amount, Pending, None, now)
  }

  /** Sort key of the payment history. */
  function CreatedAtOf(p: Payment): int { p.createdAt }
}
