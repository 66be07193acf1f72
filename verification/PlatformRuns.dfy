/** The money services from an empty database on: what the ledger holds after any calls. */
module PlatformRuns {
  import opened Decimals
  import opened Accounts
  import opened Ledger
  import opened Sums
  import opened MoneyTables
  import opened Refinement
  import opened Accounting
  import opened LedgerStores
  import opened Lifecycles
  import opened Outcomes
  import opened Platforms

  /** Whatever calls are made, in whatever order and with whatever errors, a user's balances and the
      platform's pending points, computed from the ledger's entries, are sums over the tables of the
      run, and what the platform owes in all is what it booked out. */
  method BalancesAfter(wallets: map<nat, Currency>, xs: seq<Action>, user: nat, c: Currency)
    returns (cash: int, pending: int, locked: int, points: int, due: int, owed: int, booked: int)
    ensures var t := Run(Fresh(wallets), xs);
            && cash == Sum(t.rewards, ApprovedCash(user, c)) + Sum(t.deposits, CreditedAmount(user, c))
                       + Sum(t.adjustments, AdjustedAmount(user, c)) - Sum(t.withdrawals, UnrejectedAmount(user, c))
            && pending == Sum(t.rewards, PendingCash(user, c))
            && locked == Sum(t.withdrawals, OpenAmount(user, c))
            && points == Sum(t.rewards, ApprovedPoints(user))
            && due == Sum(t.rewards, PendingPoints())
    ensures c != POINTS ==>
              var t := Run(Fresh(wallets), xs);
              && owed == Sum(t.rewards, LiveCash(c)) + Sum(t.deposits, ConfirmedAmount(c))
                         + Sum(t.adjustments, AdjustmentIn(c)) - Sum(t.withdrawals, PaidAmount(c))
              && owed + booked == 0
  {
    hide Expected, LedgerSum, Sum, Run, KeysOk;
    var p := new Platform(wallets);
    p.Replay(xs);
    ghost var b, t := p.store.View(), p.T();
    cash := p.store.AccountBalance(UserAccount(user, Cash, c));
    pending := p.store.AccountBalance(UserAccount(user, Pending, c));
    locked := p.store.AccountBalance(UserAccount(user, Locked, c));
    points := p.store.AccountBalance(UserAccount(user, Points, POINTS));
    due := p.store.AccountBalance(PLATFORM_PENDING_POINTS);
    booked := p.store.AccountBalance(PlatformCash(c));
    owed := p.store.TotalLiability(c);
    CashBalance(b, t, user, c);
    PendingAndLocked(b, t, user, c);
    PointsBalances(b, t, user);
    if c != POINTS {
      LiabilityFromTables(b, t, c);
      LiabilityMirrorsPlatformCash(b, t, c);
    }
  }

  /** The ledger's answer to what became of a key. */
  method LookUp(store: LedgerStore, k: Key) returns (s: KeyState)
    ensures s == StateOf(store.View(), k)
  {
    var i := store.FindByKey(k);
    if i < 0 {
      return Absent;
    }
    return if store.txns[i].status == Posted then Live(store.txns[i].entries) else Undone;
  }

  /** After any calls, the ledger holds a withdrawal's reserve, a payout of it exactly if it is PAID, a
      refund of it exactly if it is REJECTED, and never both. */
  method WithdrawalKeysAfter(wallets: map<nat, Currency>, xs: seq<Action>, i: nat)
    returns (reserve: KeyState, payout: KeyState, refund: KeyState)
    ensures var ws := Run(Fresh(wallets), xs).withdrawals;
            if i >= |ws| then reserve == Absent && payout == Absent && refund == Absent
            else
              var w := ws[i];
              var cash, locked := UserAccount(w.user, Cash, w.currency), UserAccount(w.user, Locked, w.currency);
              && reserve == Live(Transfer(cash, locked, w.amount))
              && payout == (if w.status == WPaid then Live(Transfer(locked, PlatformCash(w.currency), w.amount))
                            else Absent)
              && refund == (if w.status == WRejected then Live(Transfer(locked, cash, w.amount)) else Absent)
  {
    hide Expected, BookOk, BalancesOk, Run;
    var p := new Platform(wallets);
    p.Replay(xs);
    reserve := LookUp(p.store, WithdrawalReserve(i));
    payout := LookUp(p.store, WithdrawalPayout(i));
    refund := LookUp(p.store, WithdrawalRefund(i));
    ghost var b, t := p.store.View(), p.T();
    assert KeyOk(t, WithdrawalReserve(i), StateOf(b, WithdrawalReserve(i)));
    assert KeyOk(t, WithdrawalPayout(i), StateOf(b, WithdrawalPayout(i)));
    assert KeyOk(t, WithdrawalRefund(i), StateOf(b, WithdrawalRefund(i)));
  }

  lemma {:induction false} DepositsArePositive(wallets: map<nat, Currency>, xs: seq<Action>)
    ensures forall i | 0 <= i < |Run(Fresh(wallets), xs).deposits| :: Run(Fresh(wallets), xs).deposits[i].amount > 0
  {
    if xs != [] {
      var before, x := Run(Fresh(wallets), xs[..|xs| - 1]), xs[|xs| - 1];
      DepositsArePositive(wallets, xs[..|xs| - 1]);
      NewDepositsArePositive(before, x);
    }
  }

  lemma NewDepositsArePositive(t: Tables, x: Action)
    requires forall i | 0 <= i < |t.deposits| :: t.deposits[i].amount > 0
    ensures forall i | 0 <= i < |Step(t, x).deposits| :: Step(t, x).deposits[i].amount > 0
  {
    StepEvolvesDeposits(t, x);
  }

  /** A deposit that awaits payment after some calls is credited in the ledger by the further ones
      exactly if its wallet is in USD and it is confirmed before an expiry call reaches its deadline. */
  method DepositCreditAfter(wallets: map<nat, Currency>, xs: seq<Action>, ys: seq<Action>, i: nat)
    returns (credit: KeyState)
    requires i < |Run(Fresh(wallets), xs).deposits| && Run(Fresh(wallets), xs).deposits[i].status == DAwaiting
    ensures var t := Run(Fresh(wallets), xs);
            var d := t.deposits[i];
            credit == if WalletCurrency(t, d.user) == USD && ConfirmedInTime(ys, i, d.expiresAt)
                      then Live(Transfer(PlatformCash(USD), UserAccount(d.user, Cash, USD), d.amount)) else Absent
  {
    hide Expected, BookOk, BalancesOk, Run, ConfirmedInTime, Fate;
    var p := new Platform(wallets);
    p.Replay(xs);
    ghost var t := p.T();
    DepositsArePositive(wallets, xs);
    DepositRun(t, ys, i);
    CreditedIffConfirmedInTime(ys, i, t.deposits[i].expiresAt, WalletCurrency(t, t.deposits[i].user) == USD);
    p.Replay(ys);
    credit := LookUp(p.store, DepositCredit(i));
    assert KeyOk(p.T(), DepositCredit(i), StateOf(p.store.View(), DepositCredit(i)));
  }

  /** Confirming an open deposit to a wallet that is not in USD: the posting is refused, which takes
      everything back, rows and ledger alike, and leaves the deposit open. */
  method ConfirmForeignDeposit(p: Platform, i: nat) returns (r: Result<(), Failure>)
    requires p.Valid() && i < |p.deposits| && p.deposits[i].amount != 0
    requires p.deposits[i].status !in {DConfirmed, DFailed, DExpired, DRefunded}
    requires WalletCurrency(p.T(), p.deposits[i].user) != USD
    modifies p, p.store
    ensures p.Valid() && r == Err(LedgerRefused(CurrencyUnbalanced))
    ensures p.T() == old(p.T()) && p.store.View() == old(p.store.View())
  {
    hide Inv;
    r := p.ConfirmDeposit(i);
  }
}
