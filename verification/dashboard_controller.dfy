/** The dashboard summary (controllers/dashboardController.js): counts, the
    amount still due and the five latest borrows, all read-only. */
module DashboardController {
  import opened Types
  import opened UserModel
  import opened BorrowModel
  import opened PaymentModel
  import opened Store
  import opened Ordering

  datatype Summary = Summary(
    activeBorrows: nat,
    totalAmountDue: real,
    balance: real,
    totalDebt: real,
    historyCount: nat,
    overdueCount: nat,
    recentBorrows: seq<BorrowId>,
    hasActiveBorrow: bool)

  /** How many borrows the dashboard lists. */
  const RECENT_LIMIT: nat := 5

  /** The caller's borrows whose status is one of `statuses`. */
  function CallerBorrows(s: State, caller: UserId, statuses: set<BorrowStatus>): set<BorrowId> {
    set k | k in s.borrows && s.borrows[k].user == caller && s.borrows[k].status in statuses
  }

  /** The caller's Pending payments. */
  function PendingPayments(s: State, caller: UserId): set<PaymentId> {
    set p | p in s.payments && s.payments[p].user == caller && s.payments[p].status == Pending
  }

  /** The sum of the amounts of the payments `ids`, in no particular order. */
  ghost function SumAmounts(payments: map<PaymentId, Payment>, ids: set<PaymentId>): real
    requires ids <= payments.Keys
    decreases ids
  {
    if ids == {} then 0.0
    else
      var p :| p in ids;
      payments[p].amount + SumAmounts(payments, ids - {p})
  }

  /** Any payment can be taken out of the sum first. */
  lemma {:induction false} SumAmountsRemove(payments: map<PaymentId, Payment>, ids: set<PaymentId>, p: PaymentId)
    requires ids <= payments.Keys && p in ids
    ensures SumAmounts(payments, ids) == payments[p].amount + SumAmounts(payments, ids - {p})
    decreases ids
  {
    var q :| q in ids && SumAmounts(payments, ids) == payments[q].amount + SumAmounts(payments, ids - {q});
    if q != p {
      SumAmountsRemove(payments, ids - {q}, p);
      SumAmountsRemove(payments, ids - {p}, q);
      assert ids - {q} - {p} == ids - {p} - {q};
    }
  }

  /** A listing without repeats has as many entries as the set it lists. */
  lemma {:induction false} DistinctLength<K>(r: seq<K>, members: set<K>)
    requires Distinct(r)
    requires forall k :: k in members <==> k in r
    ensures |members| == |r|
  {
    if r != [] {
      var tail := r[1..];
      assert r[0] !in tail by {
        forall i | 0 <= i < |tail|
          ensures tail[i] != r[0]
        {
          assert tail[i] == r[i + 1];
        }
      }
      forall k
        ensures k in members - {r[0]} <==> k in tail
      {
        if k in tail {
          var i :| 0 <= i < |tail| && tail[i] == k;
          assert r[i + 1] == k;
        }
        if k in r && k != r[0] {
          var i :| 0 <= i < |r| && r[i] == k;
          assert tail[i - 1] == k;
        }
      }
      DistinctLength(tail, members - {r[0]});
    }
  }

  /** `getDashboardSummary`. */
  method GetDashboardSummary(s: State, caller: UserId) returns (r: Summary)
    requires caller in s.users
    ensures r.activeBorrows == |CallerBorrows(s, caller, {Active})|
    ensures r.totalAmountDue == SumAmounts(s.payments, PendingPayments(s, caller))
    ensures r.historyCount == |CallerBorrows(s, caller, {Returned, Overdue})|
    ensures r.overdueCount == |CallerBorrows(s, caller, {Overdue})|
    ensures r.balance == s.users[caller].balance && r.totalDebt == s.users[caller].totalDebt
    ensures r.hasActiveBorrow == s.users[caller].hasActiveBorrow
    // the five latest of the caller's borrows, latest first
    ensures |r.recentBorrows| == if |CallerBorrows(s, caller, {Active, Returned, Overdue})| < RECENT_LIMIT
                                 then |CallerBorrows(s, caller, {Active, Returned, Overdue})|
                                 else RECENT_LIMIT
    ensures forall k :: k in r.recentBorrows ==> k in s.borrows && s.borrows[k].user == caller
    ensures Distinct(r.recentBorrows)
    ensures SortedDesc(s.borrows, BorrowDateOf, r.recentBorrows)
    ensures forall k :: k in s.borrows && s.borrows[k].user == caller && k !in r.recentBorrows ==>
              forall i :: 0 <= i < |r.recentBorrows| ==>
                s.borrows[r.recentBorrows[i]].borrowDate >= s.borrows[k].borrowDate
  {
    var user := s.users[caller];

    var pending := PendingPayments(s, caller);
    var due := 0.0;
    var rest := pending;
    while rest != {}
      invariant rest <= pending <= s.payments.Keys
      invariant due + SumAmounts(s.payments, rest) == SumAmounts(s.payments, pending)
      decreases rest
    {
      var p :| p in rest;
      SumAmountsRemove(s.payments, rest, p);
      due := due + s.payments[p].amount;
      rest := rest - {p};
    }

    var mine := SelectDesc(s.borrows, (b: Borrow) => b.user == caller, BorrowDateOf);
    var recent := Limit(mine, RECENT_LIMIT);
    var all := CallerBorrows(s, caller, {Active, Returned, Overdue});
    assert forall k :: k in all <==> k in mine by {
      forall k
        ensures k in mine <==> k in all
      {
        if k in s.borrows {
          match s.borrows[k].status
          case Active =>
          case Returned =>
          case Overdue =>
        }
      }
    }
    DistinctLength(mine, all);
    assert Distinct(recent);
    forall k | k in s.borrows && s.borrows[k].user == caller && k !in recent
      ensures forall i :: 0 <= i < |recent| ==> s.borrows[recent[i]].borrowDate >= s.borrows[k].borrowDate
    {
      LimitKeepsLatest(s.borrows, BorrowDateOf, mine, RECENT_LIMIT, k);
    }

    r := Summary(
      |CallerBorrows(s, caller, {Active})|,
      due,
      user.balance,
      user.totalDebt,
      |CallerBorrows(s, caller, {Returned, Overdue})|,
      |CallerBorrows(s, caller, {Overdue})|,
      recent,
      user.hasActiveBorrow);
  }

  /** The three statuses split the caller's borrows: active plus history is
      all of them, and the overdue ones are part of the history. */
  lemma StatusCountsPartition(s: State, caller: UserId)
    ensures |CallerBorrows(s, caller, {Active})| + |CallerBorrows(s, caller, {Returned, Overdue})|
            == |CallerBorrows(s, caller, {Active, Returned, Overdue})|
    ensures |CallerBorrows(s, caller, {Overdue})| <= |CallerBorrows(s, caller, {Returned, Overdue})|
  {
    var active := CallerBorrows(s, caller, {Active});
    var history := CallerBorrows(s, caller, {Returned, Overdue});
    assert CallerBorrows(s, caller, {Active, Returned, Overdue}) == active + history;
    assert active !! history;
    var overdue := CallerBorrows(s, caller, {Overdue});
    assert history == overdue + (history - overdue);
    assert overdue !! (history - overdue);
  }

  /** Under the store invariant the active count is 1 exactly when the account
      holds a borrow, and 0 otherwise. */
  lemma ActiveCountMatchesFlag(s: State, caller: UserId)
    requires Valid(s) && caller in s.users
    ensures |CallerBorrows(s, caller, {Active})| == if s.users[caller].hasActiveBorrow then 1 else 0
  {
    var active := CallerBorrows(s, caller, {Active});
    if s.users[caller].hasActiveBorrow {
      assert caller in Holders(s.borrows);
      var k :| k in s.borrows && s.borrows[k].status == Active && s.borrows[k].user == caller;
      assert active == {k};
    } else {
      assert forall k :: k in active ==> caller in Holders(s.borrows);
      assert active == {};
    }
  }

  /** With nothing pending, nothing is due. */
  lemma NothingPendingNothingDue(s: State, caller: UserId)
    requires PendingPayments(s, caller) == {}
    ensures SumAmounts(s.payments, PendingPayments(s, caller)) == 0.0
  {
  }
}
