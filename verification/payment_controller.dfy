/** The payment handlers (controllers/paymentController.js). */
module PaymentController {
  import opened Types
  import opened UserModel
  import opened PaymentModel
  import opened Store
  import opened Ordering

  /** `markPaymentAsPaid`: not found, not the caller's, already paid, in that
      order; otherwise the payment becomes Paid at `now` and its amount moves
      from the caller's debt to the caller's balance. */
  function MarkPaymentAsPaid(s: State, caller: UserId, paymentId: PaymentId, now: Instant): (r: Result<(State, Payment)>)
    requires caller in s.users
    ensures paymentId !in s.payments ==> r == Err(NotFound)
    ensures paymentId in s.payments && s.payments[paymentId].user != caller ==> r == Err(Forbidden)
    ensures (paymentId in s.payments && s.payments[paymentId].user == caller
             && s.payments[paymentId].status == Paid) ==> r == Err(AlreadyPaid)
    ensures r.Ok? <==>
              paymentId in s.payments && s.payments[paymentId].user == caller
              && s.payments[paymentId].status == Pending
    ensures r.Ok? ==>
              var (s', p') := r.value;
              var p := s.payments[paymentId];
              var u := s.users[caller];
              && p' == p.(status := Paid, paymentDate := Some(now))
              && s'.payments == s.payments[paymentId := p']
              && s'.users.Keys == s.users.Keys
              && s'.users[caller].totalDebt == u.totalDebt - p.amount
              && s'.users[caller].balance == u.balance + p.amount
              && s'.users[caller].totalDebt + s'.users[caller].balance == u.totalDebt + u.balance
              && s'.users[caller].hasActiveBorrow == u.hasActiveBorrow
              && (forall v :: v in s.users && v != caller ==> s'.users[v] == s.users[v])
              && s'.books == s.books && s'.borrows == s.borrows && s'.nextId == s.nextId
  {
    if paymentId !in s.payments then Err(NotFound)
    else
      var p := s.payments[paymentId];
      if p.user != caller then Err(Forbidden)
      else if p.status == Paid then Err(AlreadyPaid)
      else
        assert p.status == Pending;
        var p' := p.(status := Paid, paymentDate := Some(now));
        var u := s.users[caller];
        var s' := s.(
          payments := s.payments[paymentId := p'],
          users := s.users[caller := u.(totalDebt := u.totalDebt - p.amount,
                                        balance := u.balance + p.amount)]);
        Ok((s', p'))
  }

  /** `getPaymentHistory`: exactly the caller's payments, newest first. */
  method GetPaymentHistory(s: State, caller: UserId) returns (r: seq<PaymentId>)
    ensures forall p :: p in r <==> p in s.payments && s.payments[p].user == caller
    ensures Distinct(r)
    ensures SortedDesc(s.payments, CreatedAtOf, r)
  {
    r := SelectDesc(s.payments, (p: Payment) => p.user == caller, CreatedAtOf);
  }
}
