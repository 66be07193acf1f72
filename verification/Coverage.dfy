/** Whether the cash of users is ever overdrawn. */
module Coverage {
  import opened Outcomes
  import opened Decimals
  import opened Accounts
  import opened LedgerStores
  import opened WithdrawalPolicy
  import opened Sums
  import opened MoneyTables
  import opened Refinement
  import opened Lifecycles
  import opened ServiceContracts
  import opened Fates
  import opened Platforms

  function UserCash(user: nat, c: Currency): Account {
    UserAccount(user, Cash, c)
  }

  ghost predicate CashCovered(t: Tables) {
    forall user: nat, c: Currency :: Expected(t, UserCash(user, c)) >= 0
  }

  /** Calls other than withdrawal requests that take cash from a user: the reversal of an approved
      reward, a negative adjustment, and the rejection of a withdrawal of a negative amount. */
  predicate TakesCash(t: Tables, x: Action) {
    match x
    case DoReverse(i) => i < |t.rewards| && t.rewards[i].status == RApproved && t.rewards[i].cash > 0
    case DoAdjust(_, amount, _) => amount < 0
    case DoRejectWithdrawal(i) => i < |t.withdrawals| && t.withdrawals[i].amount < 0
    case _ => false
  }

  ghost predicate OnlyRequestsTake(t: Tables, xs: seq<Action>) {
    forall n | 0 <= n < |xs| :: !TakesCash(Run(t, xs[..n]), xs[n])
  }

  /** A deposit of a negative amount takes cash when it is confirmed; none is ever created. */
  predicate DepositsPositive(t: Tables) {
    forall i | 0 <= i < |t.deposits| :: t.deposits[i].amount > 0
  }

  /** Rows of rewards only ever add to a user's cash. */
  lemma RewardsNeverTake(t: Tables, x: Action, a: Account)
    requires !TakesCash(t, x) && a.owner.User? && a.kind == Cash
    ensures Sum(t.rewards, RewardFeet(a)) <= Sum(Step(t, x).rewards, RewardFeet(a))
  {
    hide RewardFoot, TakesCash;
    var u := Step(t, x);
    StepEvolvesRewards(t, x);
    forall i | 0 <= i < |t.rewards| ensures RewardFoot(t.rewards[i], a) <= RewardFoot(u.rewards[i], a) {
      RewardNext(t, x, i);
      RewardRowNeverTakes(t, x, i, u.rewards[i], a);
    }
    forall i | |t.rewards| <= i < |u.rewards| ensures RewardFoot(u.rewards[i], a) >= 0 {
      NoFootBelowZero(u.rewards[i], a);
    }
    SumGrows(t.rewards, u.rewards, RewardFeet(a));
  }

  lemma NoFootBelowZero(r: Reward, a: Account)
    requires a.owner.User? && a.kind == Cash
    ensures RewardFoot(r, a) >= 0
  {
  }

  lemma RewardRowNeverTakes(t: Tables, x: Action, i: nat, s: Reward, a: Account)
    requires !TakesCash(t, x) && a.owner.User? && a.kind == Cash && i < |t.rewards|
    requires s == t.rewards[i].(status := s.status, held := s.held)
    requires t.rewards[i].status == RApproved ==> s.status == (if x == DoReverse(i) then RReversed else RApproved)
    ensures RewardFoot(t.rewards[i], a) <= RewardFoot(s, a)
  {
  }

  lemma WithdrawalsNeverTake(t: Tables, x: Action, a: Account)
    requires !TakesCash(t, x) && !x.DoRequest? && a.owner.User? && a.kind == Cash
    ensures Sum(t.withdrawals, WithdrawalFeet(a)) <= Sum(Step(t, x).withdrawals, WithdrawalFeet(a))
  {
    hide WithdrawalFoot, TakesCash, ApprovalOfWithdrawal;
    var u := Step(t, x);
    NoOtherWithdrawals(t, x);
    forall i | 0 <= i < |t.withdrawals|
      ensures WithdrawalFoot(t.withdrawals[i], a) <= WithdrawalFoot(u.withdrawals[i], a)
    {
      WithdrawalNext(t, x, i);
      WithdrawalRowNeverTakes(t, x, i, u.withdrawals[i], a);
    }
    SumGrows(t.withdrawals, u.withdrawals, WithdrawalFeet(a));
  }

  lemma NoOtherWithdrawals(t: Tables, x: Action)
    requires !x.DoRequest?
    ensures |Step(t, x).withdrawals| == |t.withdrawals|
  {
  }

  lemma WithdrawalRowNeverTakes(t: Tables, x: Action, i: nat, v: Withdrawal, a: Account)
    requires !TakesCash(t, x) && a.owner.User? && a.kind == Cash && i < |t.withdrawals|
    requires var w := t.withdrawals[i];
             if Approval(x, i) && w.status in {WRequested, WUnderReview} then
               ApprovalOfWithdrawal(t, i, x.approver, x.second, Ok(()), t.(withdrawals := t.withdrawals[i := v]))
             else
               v == w.(status := if x == DoPay(i) && w.status in {WApproved, WProcessing} then WPaid
                                 else if x == DoRejectWithdrawal(i) && w.status !in {WPaid, WRejected, WCancelled}
                                 then WRejected else w.status)
    ensures WithdrawalFoot(t.withdrawals[i], a) <= WithdrawalFoot(v, a)
  {
  }

  lemma DepositsNeverTake(t: Tables, x: Action, a: Account)
    requires DepositsPositive(t) && a.owner.User? && a.kind == Cash
    ensures Sum(t.deposits, DepositFeet(a)) <= Sum(Step(t, x).deposits, DepositFeet(a))
    ensures DepositsPositive(Step(t, x))
  {
    hide DepositFoot;
    var u := Step(t, x);
    StepEvolvesDeposits(t, x);
    forall i | 0 <= i < |t.deposits|
      ensures u.deposits[i].amount > 0 && DepositFoot(t.deposits[i], a) <= DepositFoot(u.deposits[i], a)
    {
      assert DepositEvolves(t.deposits[i], u.deposits[i]);
      DepositRowNeverTakes(t.deposits[i], u.deposits[i], a);
    }
    NewDepositsWait(t, x, a);
    SumGrows(t.deposits, u.deposits, DepositFeet(a));
  }

  lemma DepositRowNeverTakes(d: Deposit, e: Deposit, a: Account)
    requires DepositEvolves(d, e) && d.amount > 0 && a.owner.User? && a.kind == Cash
    ensures DepositFoot(d, a) <= DepositFoot(e, a)
  {
  }

  lemma NewDepositsWait(t: Tables, x: Action, a: Account)
    ensures forall i | |t.deposits| <= i < |Step(t, x).deposits| ::
              Step(t, x).deposits[i].amount > 0 && DepositFoot(Step(t, x).deposits[i], a) == 0
  {
  }

  lemma AdjustmentsNeverTake(t: Tables, x: Action, a: Account)
    requires !TakesCash(t, x) && a.owner.User? && a.kind == Cash
    ensures Sum(t.adjustments, AdjustmentFeet(a)) <= Sum(Step(t, x).adjustments, AdjustmentFeet(a))
  {
    var u := Step(t, x);
    NewAdjustmentsGive(t, x, a);
    SumGrows(t.adjustments, u.adjustments, AdjustmentFeet(a));
  }

  lemma NewAdjustmentsGive(t: Tables, x: Action, a: Account)
    requires !TakesCash(t, x) && a.owner.User? && a.kind == Cash
    ensures t.adjustments <= Step(t, x).adjustments
    ensures forall i | |t.adjustments| <= i < |Step(t, x).adjustments| ::
              AdjustmentFoot(Step(t, x).adjustments[i], a) >= 0
  {
  }

  /** A request takes at most what there is. */
  lemma RequestCovers(t: Tables, q: Request)
    requires CashCovered(t)
    ensures CashCovered(Step(t, DoRequest(q)))
  {
    hide Decide, Expected;
    var currency := RequestCurrency(t, q);
    var cash := Expected(t, UserCash(q.user, currency));
    var c := CircumstancesOf(t, q, cash);
    AcceptedIff(q.amount, currency, q.settings, c);
    var u := Step(t, DoRequest(q));
    if RequestWithdrawal(t, q, cash).Ok? {
      var w := u.withdrawals[|t.withdrawals|];
      ExpectedNewWithdrawal(t, w);
      forall user: nat, d: Currency ensures Expected(u, UserCash(user, d)) >= 0 {
        assert Expected(t, UserCash(user, d)) >= 0;
      }
    }
  }

  lemma StepCovers(t: Tables, x: Action)
    requires CashCovered(t) && DepositsPositive(t) && !TakesCash(t, x)
    ensures CashCovered(Step(t, x)) && DepositsPositive(Step(t, x))
  {
    hide Step, TakesCash, DepositsPositive;
    DepositsNeverTake(t, x, UserCash(0, PKR));
    if x.DoRequest? {
      RequestCovers(t, x.request);
    } else {
      forall user: nat, c: Currency ensures Expected(Step(t, x), UserCash(user, c)) >= 0 {
        var a := UserCash(user, c);
        assert Expected(t, a) >= 0;
        RewardsNeverTake(t, x, a);
        WithdrawalsNeverTake(t, x, a);
        DepositsNeverTake(t, x, a);
        AdjustmentsNeverTake(t, x, a);
      }
    }
  }

  lemma {:induction false} RunCovers(t: Tables, xs: seq<Action>)
    requires CashCovered(t) && DepositsPositive(t) && OnlyRequestsTake(t, xs)
    ensures CashCovered(Run(t, xs)) && DepositsPositive(Run(t, xs))
  {
    hide Step, TakesCash, CashCovered, DepositsPositive;
    if xs != [] {
      var n := |xs| - 1;
      forall m | 0 <= m < n ensures !TakesCash(Run(t, xs[..n][..m]), xs[..n][m]) {
        assert xs[..n][..m] == xs[..m] && !TakesCash(Run(t, xs[..m]), xs[m]);
      }
      RunCovers(t, xs[..n]);
      assert !TakesCash(Run(t, xs[..n]), xs[n]);
      StepCovers(Run(t, xs[..n]), xs[n]);
    }
  }

  /** However many requests are made, and whatever else happens that takes no cash from users, the
      ledger never shows a user with less than nothing in cash. */
  method CashAfter(wallets: map<nat, Currency>, xs: seq<Action>, user: nat, c: Currency) returns (cash: int)
    requires OnlyRequestsTake(Fresh(wallets), xs)
    ensures cash >= 0
  {
    hide Run, Expected, OnlyRequestsTake;
    var p := new Platform(wallets);
    NothingYet(wallets);
    RunCovers(Fresh(wallets), xs);
    p.Replay(xs);
    cash := p.store.AccountBalance(UserCash(user, c));
    assert Expected(p.T(), UserCash(user, c)) >= 0;
  }

  lemma NothingYet(wallets: map<nat, Currency>)
    ensures CashCovered(Fresh(wallets)) && DepositsPositive(Fresh(wallets))
  {
  }
}
