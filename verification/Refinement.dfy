/** How the ledger and the money tables belong together: the invariant that every service call
    keeps, and what it says about balances and liabilities. */
module Refinement {
  import opened Outcomes
  import opened Decimals
  import opened Accounts
  import opened Ledger
  import opened Sums
  import opened MoneyTables

  // ---------------------------------------------------------------- what each key posted

  function PendingEntries(r: Reward): seq<Entry> {
    Transfer(PlatformCash(r.currency), UserAccount(r.user, Pending, r.currency), r.cash)
  }

  function PendingPointsEntries(r: Reward): seq<Entry> {
    Transfer(PLATFORM_POINTS, PLATFORM_PENDING_POINTS, r.points)
  }

  function ApproveEntries(r: Reward): seq<Entry> {
    Transfer(UserAccount(r.user, Pending, r.currency), UserAccount(r.user, Cash, r.currency), r.cash)
  }

  function ApprovePointsEntries(r: Reward): seq<Entry> {
    Transfer(PLATFORM_PENDING_POINTS, UserAccount(r.user, Points, POINTS), r.points)
  }

  function ReserveEntries(w: Withdrawal): seq<Entry> {
    Transfer(UserAccount(w.user, Cash, w.currency), UserAccount(w.user, Locked, w.currency), w.amount)
  }

  function PayoutEntries(w: Withdrawal): seq<Entry> {
    Transfer(UserAccount(w.user, Locked, w.currency), PlatformCash(w.currency), w.amount)
  }

  function RefundEntries(w: Withdrawal): seq<Entry> {
    Transfer(UserAccount(w.user, Locked, w.currency), UserAccount(w.user, Cash, w.currency), w.amount)
  }

  function CreditEntries(d: Deposit, walletCurrency: Currency): seq<Entry> {
    Transfer(PlatformCash(USD), UserAccount(d.user, Cash, walletCurrency), d.amount)
  }

  /** The posting made when a reward is issued: live while the reward is, reversed with it. */
  predicate IssuedKeyOk(r: Reward, amount: int, es: seq<Entry>, s: KeyState) {
    if amount <= 0 then s == Absent
    else if LiveReward(r) then s == Live(es)
    else s == Undone
  }

  predicate ApprovedKeyOk(r: Reward, amount: int, es: seq<Entry>, s: KeyState) {
    if amount <= 0 then s == Absent
    else
      match r.status
      case RPending => s == Absent
      case RRejected => s == Absent
      case RApproved => s == Live(es)
      case RReversed => s == Absent || s == Undone
  }

  /** What the ledger may say about a key, given the row that the key belongs to. */
  predicate KeyOk(t: Tables, k: Key, s: KeyState) {
    match k
    case RewardPending(i) =>
      if i < |t.rewards| then IssuedKeyOk(t.rewards[i], t.rewards[i].cash, PendingEntries(t.rewards[i]), s)
          else s == Absent
    case RewardPendingPoints(i) =>
      if i < |t.rewards| then IssuedKeyOk(t.rewards[i], t.rewards[i].points, PendingPointsEntries(t.rewards[i]), s)
          else s == Absent
    case RewardApprove(i) =>
      if i < |t.rewards| then ApprovedKeyOk(t.rewards[i], t.rewards[i].cash, ApproveEntries(t.rewards[i]), s)
          else s == Absent
    case RewardApprovePoints(i) =>
      if i < |t.rewards| then ApprovedKeyOk(t.rewards[i], t.rewards[i].points, ApprovePointsEntries(t.rewards[i]), s)
          else s == Absent
    case WithdrawalReserve(i) =>
      s == if i < |t.withdrawals| then Live(ReserveEntries(t.withdrawals[i])) else Absent
    case WithdrawalPayout(i) =>
      s == if i < |t.withdrawals| && t.withdrawals[i].status == WPaid then Live(PayoutEntries(t.withdrawals[i]))
          else Absent
    case WithdrawalRefund(i) =>
      s == if i < |t.withdrawals| && t.withdrawals[i].status == WRejected then Live(RefundEntries(t.withdrawals[i]))
          else Absent
    case DepositCredit(i) =>
      s == if i < |t.deposits| && t.deposits[i].status == DConfirmed
           then Live(CreditEntries(t.deposits[i], WalletCurrency(t, t.deposits[i].user))) else Absent
    case Reversal(_) => true
  }

  ghost predicate KeysOk(b: Book, t: Tables) {
    forall k {:trigger KeyOk(t, k, StateOf(b, k))} :: KeyOk(t, k, StateOf(b, k))
  }

  ghost predicate BalancesOk(b: Book, t: Tables) {
    forall a :: Bal(b.balances, a) == Expected(t, a)
  }

  /** The refinement: the ledger is in order, every balance is the one the tables call for, and
      every key was used exactly as far as its row has come. */
  ghost predicate Inv(b: Book, t: Tables) {
    BookOk(b) && BalancesOk(b, t) && KeysOk(b, t)
  }

  lemma FreshInv(wallets: map<nat, Currency>)
    ensures Inv(Book(map[], []), Fresh(wallets))
  {
    var b := Book(map[], []);
    forall c ensures CurrencyTotal(b.balances, c) == 0 {
      assert InCurrency(b.balances, c) == {};
    }
  }

  // ---------------------------------------------------------------- changes of the tables

  lemma ExpectedWithReward(t: Tables, i: nat, r: Reward)
    requires i < |t.rewards|
    ensures forall a ::
        Expected(WithReward(t, i, r), a) == Expected(t, a) - RewardFoot(t.rewards[i], a) + RewardFoot(r, a)
  {
    forall a ensures Expected(WithReward(t, i, r), a)
        == Expected(t, a) - RewardFoot(t.rewards[i], a) + RewardFoot(r, a) {
      SumUpdate(t.rewards, i, r, RewardFeet(a));
    }
  }

  lemma ExpectedNewReward(t: Tables, r: Reward)
    ensures forall a :: Expected(t.(rewards := t.rewards + [r]), a) == Expected(t, a) + RewardFoot(r, a)
  {
    forall a ensures Expected(t.(rewards := t.rewards + [r]), a) == Expected(t, a) + RewardFoot(r, a) {
      SumAppend(t.rewards, r, RewardFeet(a));
    }
  }

  lemma ExpectedWithWithdrawal(t: Tables, i: nat, w: Withdrawal)
    requires i < |t.withdrawals|
    ensures forall a ::
              Expected(WithWithdrawal(t, i, w), a)
                  == Expected(t, a) - WithdrawalFoot(t.withdrawals[i], a) + WithdrawalFoot(w, a)
  {
    forall a
      ensures Expected(WithWithdrawal(t, i, w), a)
          == Expected(t, a) - WithdrawalFoot(t.withdrawals[i], a) + WithdrawalFoot(w, a)
    {
      SumUpdate(t.withdrawals, i, w, WithdrawalFeet(a));
    }
  }

  lemma ExpectedNewWithdrawal(t: Tables, w: Withdrawal)
    ensures forall a :: Expected(t.(withdrawals := t.withdrawals + [w]), a) == Expected(t, a) + WithdrawalFoot(w, a)
  {
    forall a ensures Expected(t.(withdrawals := t.withdrawals + [w]), a) == Expected(t, a) + WithdrawalFoot(w, a) {
      SumAppend(t.withdrawals, w, WithdrawalFeet(a));
    }
  }

  lemma ExpectedWithDeposit(t: Tables, i: nat, d: Deposit)
    requires i < |t.deposits|
    ensures forall a ::
        Expected(WithDeposit(t, i, d), a) == Expected(t, a) - DepositFoot(t.deposits[i], a) + DepositFoot(d, a)
  {
    forall a ensures Expected(WithDeposit(t, i, d), a)
        == Expected(t, a) - DepositFoot(t.deposits[i], a) + DepositFoot(d, a) {
      SumUpdate(t.deposits, i, d, DepositFeet(a));
    }
  }

  lemma ExpectedNewDeposit(t: Tables, d: Deposit)
    ensures forall a :: Expected(t.(deposits := t.deposits + [d]), a) == Expected(t, a) + DepositFoot(d, a)
  {
    forall a ensures Expected(t.(deposits := t.deposits + [d]), a) == Expected(t, a) + DepositFoot(d, a) {
      SumAppend(t.deposits, d, DepositFeet(a));
    }
  }

  lemma ExpectedNewAdjustment(t: Tables, x: AdjustmentRow)
    ensures forall a :: Expected(t.(adjustments := t.adjustments + [x]), a) == Expected(t, a) + AdjustmentFoot(x, a)
  {
    forall a ensures Expected(t.(adjustments := t.adjustments + [x]), a) == Expected(t, a) + AdjustmentFoot(x, a) {
      SumAppend(t.adjustments, x, AdjustmentFeet(a));
    }
  }

  // ---------------------------------------------------------------- changes of the ledger

  /** Nothing that matters changed: rows with a zero balance may have been provisioned. */
  ghost predicate SameMoney(b: Book, c: Book) {
    && BookOk(c)
    && b.balances.Keys <= c.balances.Keys
    && (forall a :: Bal(c.balances, a) == Bal(b.balances, a))
    && (forall k :: StateOf(c, k) == StateOf(b, k))
  }

  /** `amount` moved from `source` to `target` under a key that was new. */
  ghost predicate Moved(b: Book, c: Book, key: Option<Key>, source: Account, target: Account, amount: int) {
    && BookOk(c)
    && b.balances.Keys <= c.balances.Keys
    && (forall a :: Bal(c.balances, a) == Bal(b.balances, a) + Move(source, target, amount, a))
    && (forall k :: StateOf(c, k) == if key == Some(k) then Live(Transfer(source, target, amount)) else StateOf(b, k))
  }

  lemma TransferPosts(b: Book, key: Option<Key>, source: Account, target: Account, amount: int)
    requires BookOk(b) && source in b.balances && target in b.balances
    requires key.Some? ==> !key.value.Reversal? && StateOf(b, key.value) == Absent
    requires source.currency == target.currency || amount == 0
    ensures var es := Transfer(source, target, amount);
            && Post(b, key, es) == Created(Posting(b, key, es))
            && Moved(b, Posting(b, key, es), key, source, target, amount)
  {
    var es := Transfer(source, target, amount);
    TransferSums(source, target, amount);
    if amount == 0 {
      ZeroTransferBalances(source, target);
    } else {
      assert ZeroInEveryCurrency(es);
      BalancedIffZero(es);
    }
    PostingKeeps(b, key, es);
  }

  lemma ZeroTransferBalances(source: Account, target: Account)
    ensures BalancedPerCurrency(Transfer(source, target, 0))
  {
    forall c ensures Turnover(Transfer(source, target, 0), c) == 0 {
      var first, second := Entry(source, 0), Entry(target, 0);
      assert Transfer(source, target, 0) == ([] + [first]) + [second];
      TurnoverAppend([], first, c);
      TurnoverAppend([] + [first], second, c);
    }
  }

  lemma MovedAfterProvisioning(b: Book, ready: Book, c: Book, key: Option<Key>, source: Account, target: Account,
      amount: int)
    requires SameMoney(b, ready) && Moved(ready, c, key, source, target, amount)
    ensures Moved(b, c, key, source, target, amount)
  {
  }

  lemma TransferRefused(b: Book, key: Option<Key>, source: Account, target: Account, amount: int)
    requires key.Some? ==> StateOf(b, key.value) == Absent
    requires source.currency != target.currency && amount != 0
    ensures Post(b, key, Transfer(source, target, amount)) == Refused(CurrencyUnbalanced)
  {
    var es := Transfer(source, target, amount);
    TransferSums(source, target, amount);
    assert es[1] in es;
  }

  /** What the ledger makes of the entries that confirming an open deposit posts: it accepts them
      exactly if the user's wallet is in USD, and otherwise refuses them as unbalanced. */
  lemma DepositCreditPostsIff(b: Book, t: Tables, i: nat)
    requires Inv(b, t) && i < |t.deposits| && t.deposits[i].status != DConfirmed && t.deposits[i].amount != 0
    requires var es := CreditEntries(t.deposits[i], WalletCurrency(t, t.deposits[i].user));
             KnownAccounts(b.balances, es)
    ensures var wallet := WalletCurrency(t, t.deposits[i].user);
            var r := Post(b, Some(DepositCredit(i)), CreditEntries(t.deposits[i], wallet));
            && (r.Created? <==> wallet == USD)
            && (!r.Created? ==> r == Refused(CurrencyUnbalanced))
  {
    hide BookOk, BalancesOk, Posting, BalancedPerCurrency, Total;
    var d, wallet := t.deposits[i], WalletCurrency(t, t.deposits[i].user);
    var source, target := PlatformCash(USD), UserAccount(d.user, Cash, wallet);
    assert KeyOk(t, DepositCredit(i), StateOf(b, DepositCredit(i)));
    var es := Transfer(source, target, d.amount);
    assert es[0] in es && es[1] in es;
    if wallet == USD {
      TransferPosts(b, Some(DepositCredit(i)), source, target, d.amount);
    } else {
      TransferRefused(b, Some(DepositCredit(i)), source, target, d.amount);
    }
  }

  // ---------------------------------------------------------------- steps keep the invariant

  ghost predicate SameKeysExcept(b: Book, c: Book, keys: set<Key>) {
    forall k: Key | k !in keys && !k.Reversal? :: StateOf(c, k) == StateOf(b, k)
  }

  function RewardKeys(i: nat): set<Key> {
    {RewardPending(i), RewardPendingPoints(i), RewardApprove(i), RewardApprovePoints(i)}
  }

  function WithdrawalKeys(i: nat): set<Key> {
    {WithdrawalReserve(i), WithdrawalPayout(i), WithdrawalRefund(i)}
  }

  /** A reward row changed, its keys with it, and the balances by the difference of the footprints. */
  lemma RewardStepKeeps(b: Book, t: Tables, i: nat, r: Reward, c: Book)
    requires Inv(b, t) && i < |t.rewards| && BookOk(c)
    requires forall a :: Bal(c.balances, a) == Bal(b.balances, a) - RewardFoot(t.rewards[i], a) + RewardFoot(r, a)
    requires SameKeysExcept(b, c, RewardKeys(i))
    requires forall k | k in RewardKeys(i) :: KeyOk(WithReward(t, i, r), k, StateOf(c, k))
    ensures Inv(c, WithReward(t, i, r))
  {
    var u := WithReward(t, i, r);
    ExpectedWithReward(t, i, r);
    forall k ensures KeyOk(u, k, StateOf(c, k)) {
      if k !in RewardKeys(i) {
        assert KeyOk(t, k, StateOf(b, k));
      }
    }
  }

  lemma NewRewardFrame(t: Tables, r: Reward, k: Key, s: KeyState)
    requires k !in RewardKeys(|t.rewards|)
    ensures KeyOk(t.(rewards := t.rewards + [r]), k, s) <==> KeyOk(t, k, s)
  {
  }

  lemma NewRewardKeeps(b: Book, t: Tables, r: Reward, c: Book)
    requires Inv(b, t) && BookOk(c)
    requires forall a :: Bal(c.balances, a) == Bal(b.balances, a) + RewardFoot(r, a)
    requires SameKeysExcept(b, c, RewardKeys(|t.rewards|))
    requires var u := t.(rewards := t.rewards + [r]);
             forall k | k in RewardKeys(|t.rewards|) :: KeyOk(u, k, StateOf(c, k))
    ensures Inv(c, t.(rewards := t.rewards + [r]))
  {
    var u := t.(rewards := t.rewards + [r]);
    ExpectedNewReward(t, r);
    forall k ensures KeyOk(u, k, StateOf(c, k)) {
      if k !in RewardKeys(|t.rewards|) {
        assert KeyOk(t, k, StateOf(b, k));
        NewRewardFrame(t, r, k, StateOf(b, k));
      }
    }
  }

  lemma WithdrawalStepKeeps(b: Book, t: Tables, i: nat, w: Withdrawal, c: Book)
    requires Inv(b, t) && i < |t.withdrawals| && BookOk(c)
    requires forall a ::
        Bal(c.balances, a) == Bal(b.balances, a) - WithdrawalFoot(t.withdrawals[i], a) + WithdrawalFoot(w, a)
    requires SameKeysExcept(b, c, WithdrawalKeys(i))
    requires forall k | k in WithdrawalKeys(i) :: KeyOk(WithWithdrawal(t, i, w), k, StateOf(c, k))
    ensures Inv(c, WithWithdrawal(t, i, w))
  {
    var u := WithWithdrawal(t, i, w);
    ExpectedWithWithdrawal(t, i, w);
    forall k ensures KeyOk(u, k, StateOf(c, k)) {
      if k !in WithdrawalKeys(i) {
        assert KeyOk(t, k, StateOf(b, k));
      }
    }
  }

  lemma NewWithdrawalKeeps(b: Book, t: Tables, w: Withdrawal, c: Book)
    requires Inv(b, t) && w.status == WRequested
    requires Moved(b, c, Some(WithdrawalReserve(|t.withdrawals|)),
                   UserAccount(w.user, Cash, w.currency), UserAccount(w.user, Locked, w.currency), w.amount)
    ensures Inv(c, t.(withdrawals := t.withdrawals + [w]))
  {
    var u := t.(withdrawals := t.withdrawals + [w]);
    ExpectedNewWithdrawal(t, w);
    forall k ensures KeyOk(u, k, StateOf(c, k)) {
      assert KeyOk(t, k, StateOf(b, k));
    }
  }

  lemma PayKeeps(b: Book, t: Tables, i: nat, c: Book)
    requires Inv(b, t) && i < |t.withdrawals| && OpenWithdrawal(t.withdrawals[i])
    requires var w := t.withdrawals[i];
             Moved(b, c, Some(WithdrawalPayout(i)), UserAccount(w.user, Locked, w.currency),
                 PlatformCash(w.currency), w.amount)
    ensures Inv(c, WithWithdrawal(t, i, t.withdrawals[i].(status := WPaid)))
  {
    var paid := t.withdrawals[i].(status := WPaid);
    forall k | k in WithdrawalKeys(i) ensures KeyOk(WithWithdrawal(t, i, paid), k, StateOf(c, k)) {
      assert KeyOk(t, k, StateOf(b, k));
    }
    WithdrawalStepKeeps(b, t, i, paid, c);
  }

  lemma RefundKeeps(b: Book, t: Tables, i: nat, c: Book)
    requires Inv(b, t) && i < |t.withdrawals| && OpenWithdrawal(t.withdrawals[i])
    requires var w := t.withdrawals[i];
             Moved(b, c, Some(WithdrawalRefund(i)), UserAccount(w.user, Locked, w.currency),
                   UserAccount(w.user, Cash, w.currency), w.amount)
    ensures Inv(c, WithWithdrawal(t, i, t.withdrawals[i].(status := WRejected)))
  {
    var refunded := t.withdrawals[i].(status := WRejected);
    forall k | k in WithdrawalKeys(i) ensures KeyOk(WithWithdrawal(t, i, refunded), k, StateOf(c, k)) {
      assert KeyOk(t, k, StateOf(b, k));
    }
    WithdrawalStepKeeps(b, t, i, refunded, c);
  }

  lemma ReviewKeeps(b: Book, t: Tables, i: nat, w: Withdrawal)
    requires Inv(b, t) && i < |t.withdrawals|
    requires w == t.withdrawals[i].(status := w.status, approvedBy := w.approvedBy, secondApprover := w.secondApprover)
    requires OpenWithdrawal(t.withdrawals[i]) && OpenWithdrawal(w)
    ensures Inv(b, WithWithdrawal(t, i, w))
  {
    assert forall k | k in WithdrawalKeys(i) :: KeyOk(t, k, StateOf(b, k));
    WithdrawalStepKeeps(b, t, i, w, b);
  }

  lemma NewDepositKeeps(b: Book, t: Tables, d: Deposit)
    requires Inv(b, t) && d.status == DAwaiting
    ensures Inv(b, t.(deposits := t.deposits + [d]))
  {
    var u := t.(deposits := t.deposits + [d]);
    ExpectedNewDeposit(t, d);
    forall k ensures KeyOk(u, k, StateOf(b, k)) {
      assert KeyOk(t, k, StateOf(b, k));
    }
  }

  lemma ExpiryKeeps(b: Book, t: Tables, i: nat)
    requires Inv(b, t) && i < |t.deposits| && t.deposits[i].status != DConfirmed
    ensures Inv(b, WithDeposit(t, i, t.deposits[i].(status := DExpired)))
  {
    var u := WithDeposit(t, i, t.deposits[i].(status := DExpired));
    ExpectedWithDeposit(t, i, t.deposits[i].(status := DExpired));
    forall k ensures KeyOk(u, k, StateOf(b, k)) {
      assert KeyOk(t, k, StateOf(b, k));
    }
  }

  lemma ConfirmKeeps(b: Book, t: Tables, i: nat, c: Book)
    requires Inv(b, t) && i < |t.deposits| && t.deposits[i].status != DConfirmed
    requires var d := t.deposits[i]; var wallet := WalletCurrency(t, d.user);
             && (d.amount == 0 || wallet == USD)
             && Moved(b, c, Some(DepositCredit(i)), PlatformCash(USD), UserAccount(d.user, Cash, wallet), d.amount)
    ensures Inv(c, WithDeposit(t, i, t.deposits[i].(status := DConfirmed)))
  {
    var u := WithDeposit(t, i, t.deposits[i].(status := DConfirmed));
    ExpectedWithDeposit(t, i, t.deposits[i].(status := DConfirmed));
    forall k ensures KeyOk(u, k, StateOf(c, k)) {
      assert KeyOk(t, k, StateOf(b, k));
    }
  }

  lemma AdjustmentKeeps(b: Book, t: Tables, x: AdjustmentRow, c: Book)
    requires Inv(b, t)
    requires Moved(b, c, None, PlatformCash(x.currency), UserAccount(x.user, Cash, x.currency), x.amount)
    ensures Inv(c, t.(adjustments := t.adjustments + [x]))
  {
    var u := t.(adjustments := t.adjustments + [x]);
    ExpectedNewAdjustment(t, x);
    forall k ensures KeyOk(u, k, StateOf(c, k)) {
      assert KeyOk(t, k, StateOf(b, k));
    }
  }

  // ---------------------------------------------------------------- issue, approval and hold of a reward

  /** A posting made only for a positive amount. */
  ghost predicate MovedIfPositive(b: Book, c: Book, key: Key, source: Account, target: Account, amount: int) {
    if amount > 0 then Moved(b, c, Some(key), source, target, amount) else c == b
  }

  /** The postings that put a new reward's cash and points on hold. */
  ghost predicate PutOnHold(b: Book, mid: Book, c: Book, i: nat, r: Reward) {
    && MovedIfPositive(b, mid, RewardPending(i), PlatformCash(r.currency), UserAccount(r.user, Pending, r.currency),
        r.cash)
    && MovedIfPositive(mid, c, RewardPendingPoints(i), PLATFORM_POINTS, PLATFORM_PENDING_POINTS, r.points)
  }

  /** The postings that release them to the user. */
  ghost predicate Released(b: Book, mid: Book, c: Book, i: nat, r: Reward) {
    && MovedIfPositive(b, mid, RewardApprove(i), UserAccount(r.user, Pending, r.currency),
                       UserAccount(r.user, Cash, r.currency), r.cash)
    && MovedIfPositive(mid, c, RewardApprovePoints(i), PLATFORM_PENDING_POINTS, UserAccount(r.user, Points, POINTS),
        r.points)
  }

  lemma NewKeysAbsent(b: Book, t: Tables)
    requires KeysOk(b, t)
    ensures StateOf(b, RewardPending(|t.rewards|)) == Absent
    ensures StateOf(b, RewardPendingPoints(|t.rewards|)) == Absent
    ensures StateOf(b, RewardApprove(|t.rewards|)) == Absent
    ensures StateOf(b, RewardApprovePoints(|t.rewards|)) == Absent
  {
    assert forall k | k in RewardKeys(|t.rewards|) :: KeyOk(t, k, StateOf(b, k));
  }

  lemma PositiveMove(b: Book, c: Book, key: Key, source: Account, target: Account, amount: int)
    requires BookOk(b) && MovedIfPositive(b, c, key, source, target, amount)
    ensures BookOk(c)
    ensures forall a :: Bal(c.balances, a) == Bal(b.balances, a) + Move(source, target, Positive(amount), a)
    ensures forall k :: StateOf(c, k) == if k == key && amount > 0 then Live(Transfer(source, target, amount))
        else StateOf(b, k)
  {
  }

  lemma IssueBalances(b: Book, mid: Book, c: Book, i: nat, r: Reward)
    requires BookOk(b) && r.status == RPending && PutOnHold(b, mid, c, i, r)
    ensures BookOk(c) && forall a :: Bal(c.balances, a) == Bal(b.balances, a) + RewardFoot(r, a)
  {
    PositiveMove(b, mid, RewardPending(i), PlatformCash(r.currency), UserAccount(r.user, Pending, r.currency), r.cash);
    PositiveMove(mid, c, RewardPendingPoints(i), PLATFORM_POINTS, PLATFORM_PENDING_POINTS, r.points);
    forall a ensures Bal(c.balances, a) == Bal(b.balances, a) + RewardFoot(r, a) {
      assert Bal(mid.balances, a) - Bal(b.balances, a)
          == Move(PlatformCash(r.currency), UserAccount(r.user, Pending, r.currency), Positive(r.cash), a);
    }
  }

  lemma IssueStates(b: Book, mid: Book, c: Book, i: nat, r: Reward, k: Key)
    requires BookOk(b) && PutOnHold(b, mid, c, i, r)
    ensures StateOf(c, k) ==
            if k == RewardPending(i) && r.cash > 0 then Live(PendingEntries(r))
            else if k == RewardPendingPoints(i) && r.points > 0 then Live(PendingPointsEntries(r))
            else StateOf(b, k)
  {
    PositiveMove(b, mid, RewardPending(i), PlatformCash(r.currency), UserAccount(r.user, Pending, r.currency), r.cash);
    PositiveMove(mid, c, RewardPendingPoints(i), PLATFORM_POINTS, PLATFORM_PENDING_POINTS, r.points);
  }

  lemma NewKeyOk(t: Tables, r: Reward, k: Key, s: KeyState)
    requires r.status == RPending && k in RewardKeys(|t.rewards|)
    requires s == if k.RewardPending? && r.cash > 0 then Live(PendingEntries(r))
                  else if k.RewardPendingPoints? && r.points > 0 then Live(PendingPointsEntries(r))
                  else Absent
    ensures KeyOk(t.(rewards := t.rewards + [r]), k, s)
  {
  }

  lemma IssueKeeps(b: Book, t: Tables, r: Reward, mid: Book, c: Book)
    requires Inv(b, t) && r.status == RPending && PutOnHold(b, mid, c, |t.rewards|, r)
    ensures Inv(c, t.(rewards := t.rewards + [r]))
  {
    hide BookOk, StateOf, PendingEntries, PendingPointsEntries, Expected;
    var i := |t.rewards|;
    IssueBalances(b, mid, c, i, r);
    NewKeysAbsent(b, t);
    forall k: Key ensures k !in RewardKeys(i) ==> StateOf(c, k) == StateOf(b, k) {
      IssueStates(b, mid, c, i, r, k);
    }
    forall k | k in RewardKeys(i) ensures KeyOk(t.(rewards := t.rewards + [r]), k, StateOf(c, k)) {
      assert StateOf(b, k) == Absent;
      IssueStates(b, mid, c, i, r, k);
      NewKeyOk(t, r, k, StateOf(c, k));
    }
    NewRewardKeeps(b, t, r, c);
  }

  lemma ApprovalKeysAbsent(b: Book, t: Tables, i: nat)
    requires KeysOk(b, t) && i < |t.rewards| && t.rewards[i].status == RPending
    ensures StateOf(b, RewardApprove(i)) == Absent && StateOf(b, RewardApprovePoints(i)) == Absent
  {
    assert KeyOk(t, RewardApprove(i), StateOf(b, RewardApprove(i)));
    assert KeyOk(t, RewardApprovePoints(i), StateOf(b, RewardApprovePoints(i)));
  }

  lemma ApprovalBalances(b: Book, mid: Book, c: Book, i: nat, r: Reward)
    requires BookOk(b) && r.status == RPending && Released(b, mid, c, i, r)
    ensures BookOk(c)
    ensures forall a ::
              Bal(c.balances, a) == Bal(b.balances, a) - RewardFoot(r, a) + RewardFoot(r.(status := RApproved), a)
  {
    PositiveMove(b, mid, RewardApprove(i), UserAccount(r.user, Pending, r.currency),
        UserAccount(r.user, Cash, r.currency), r.cash);
    PositiveMove(mid, c, RewardApprovePoints(i), PLATFORM_PENDING_POINTS, UserAccount(r.user, Points, POINTS),
        r.points);
    forall a
      ensures Bal(c.balances, a) == Bal(b.balances, a) - RewardFoot(r, a) + RewardFoot(r.(status := RApproved), a)
    {
      assert Bal(mid.balances, a) - Bal(b.balances, a)
          == Move(UserAccount(r.user, Pending, r.currency), UserAccount(r.user, Cash, r.currency), Positive(r.cash), a);
    }
  }

  lemma ApprovalStates(b: Book, mid: Book, c: Book, i: nat, r: Reward, k: Key)
    requires BookOk(b) && Released(b, mid, c, i, r)
    ensures StateOf(c, k) ==
            if k == RewardApprove(i) && r.cash > 0 then Live(ApproveEntries(r))
            else if k == RewardApprovePoints(i) && r.points > 0 then Live(ApprovePointsEntries(r))
            else StateOf(b, k)
  {
    PositiveMove(b, mid, RewardApprove(i), UserAccount(r.user, Pending, r.currency),
        UserAccount(r.user, Cash, r.currency), r.cash);
    PositiveMove(mid, c, RewardApprovePoints(i), PLATFORM_PENDING_POINTS, UserAccount(r.user, Points, POINTS),
        r.points);
  }

  lemma ApprovedRowKeyOk(t: Tables, i: nat, k: Key, before: KeyState, s: KeyState)
    requires i < |t.rewards| && t.rewards[i].status == RPending && k in RewardKeys(i) && KeyOk(t, k, before)
    requires s == if k.RewardApprove? && t.rewards[i].cash > 0 then Live(ApproveEntries(t.rewards[i]))
                  else if k.RewardApprovePoints? && t.rewards[i].points > 0
                      then Live(ApprovePointsEntries(t.rewards[i]))
                  else before
    ensures KeyOk(WithReward(t, i, t.rewards[i].(status := RApproved)), k, s)
  {
  }

  lemma ApprovalKeeps(b: Book, t: Tables, i: nat, mid: Book, c: Book)
    requires Inv(b, t) && i < |t.rewards| && t.rewards[i].status == RPending
    requires Released(b, mid, c, i, t.rewards[i])
    ensures Inv(c, WithReward(t, i, t.rewards[i].(status := RApproved)))
  {
    var r := t.rewards[i];
    var approved := r.(status := RApproved);
    ApprovalBalances(b, mid, c, i, r);
    forall k: Key ensures k !in RewardKeys(i) ==> StateOf(c, k) == StateOf(b, k) {
      ApprovalStates(b, mid, c, i, r, k);
    }
    forall k | k in RewardKeys(i) ensures KeyOk(WithReward(t, i, approved), k, StateOf(c, k)) {
      assert KeyOk(t, k, StateOf(b, k));
      ApprovalStates(b, mid, c, i, r, k);
      ApprovedRowKeyOk(t, i, k, StateOf(b, k), StateOf(c, k));
    }
    RewardStepKeeps(b, t, i, approved, c);
  }

  lemma HoldKeeps(b: Book, t: Tables, i: nat)
    requires Inv(b, t) && i < |t.rewards|
    ensures Inv(b, WithReward(t, i, t.rewards[i].(held := true)))
  {
    var held := t.rewards[i].(held := true);
    forall k | k in RewardKeys(i) ensures KeyOk(WithReward(t, i, held), k, StateOf(b, k)) {
      assert KeyOk(t, k, StateOf(b, k));
    }
    RewardStepKeeps(b, t, i, held, b);
  }

  // ---------------------------------------------------------------- reversal of a reward

  function IssueKeys(i: nat): seq<Key> {
    [RewardPending(i), RewardPendingPoints(i)]
  }

  function AllKeys(i: nat): seq<Key> {
    [RewardApprove(i), RewardApprovePoints(i), RewardPending(i), RewardPendingPoints(i)]
  }

  lemma LiveNetSumAppend(b: Book, ks: seq<Key>, k: Key, a: Account)
    ensures LiveNetSum(b, ks + [k], a) == LiveNetSum(b, ks, a) + LiveNet(StateOf(b, k), a)
  {
    assert (ks + [k])[..|ks|] == ks;
  }

  /** What is live under the keys of a pending reward is its footprint. */
  lemma PendingLiveNet(b: Book, t: Tables, i: nat, a: Account)
    requires KeysOk(b, t) && i < |t.rewards| && t.rewards[i].status == RPending
    ensures LiveNetSum(b, IssueKeys(i), a) == RewardFoot(t.rewards[i], a)
  {
    var r := t.rewards[i];
    assert IssueKeys(i) == ([] + [RewardPending(i)]) + [RewardPendingPoints(i)];
    LiveNetSumAppend(b, [] + [RewardPending(i)], RewardPendingPoints(i), a);
    LiveNetSumAppend(b, [], RewardPending(i), a);
    assert KeyOk(t, RewardPending(i), StateOf(b, RewardPending(i)));
    assert KeyOk(t, RewardPendingPoints(i), StateOf(b, RewardPendingPoints(i)));
    TransferSums(PlatformCash(r.currency), UserAccount(r.user, Pending, r.currency), r.cash);
    TransferSums(PLATFORM_POINTS, PLATFORM_PENDING_POINTS, r.points);
  }

  /** For an approved reward the four postings telescope to its footprint. */
  lemma ApprovedLiveNet(b: Book, t: Tables, i: nat, a: Account)
    requires KeysOk(b, t) && i < |t.rewards| && t.rewards[i].status == RApproved
    ensures LiveNetSum(b, AllKeys(i), a) == RewardFoot(t.rewards[i], a)
  {
    hide Net, StateOf;
    var r := t.rewards[i];
    var one := [] + [RewardApprove(i)];
    var two := one + [RewardApprovePoints(i)];
    var three := two + [RewardPending(i)];
    assert AllKeys(i) == three + [RewardPendingPoints(i)];
    LiveNetSumAppend(b, three, RewardPendingPoints(i), a);
    LiveNetSumAppend(b, two, RewardPending(i), a);
    LiveNetSumAppend(b, one, RewardApprovePoints(i), a);
    LiveNetSumAppend(b, [], RewardApprove(i), a);
    assert forall k | k in RewardKeys(i) :: KeyOk(t, k, StateOf(b, k));
    TransferSums(PlatformCash(r.currency), UserAccount(r.user, Pending, r.currency), r.cash);
    TransferSums(PLATFORM_POINTS, PLATFORM_PENDING_POINTS, r.points);
    TransferSums(UserAccount(r.user, Pending, r.currency), UserAccount(r.user, Cash, r.currency), r.cash);
    TransferSums(PLATFORM_PENDING_POINTS, UserAccount(r.user, Points, POINTS), r.points);
  }

  /** A key of a live reward, once its postings are reversed, fits the closed reward. */
  lemma ClosedKeyOk(t: Tables, i: nat, over: RewardStatus, k: Key, s: KeyState)
    requires i < |t.rewards| && LiveReward(t.rewards[i]) && KeyOk(t, k, s) && k in RewardKeys(i)
    requires over == RReversed || (over == RRejected && t.rewards[i].status == RPending)
    ensures KeyOk(WithReward(t, i, t.rewards[i].(status := over)), k, if s.Live? then Undone else s)
    ensures s.Live? ==> k in (if t.rewards[i].status == RPending then IssueKeys(i) else AllKeys(i))
  {
  }

  /** Reversing the postings of a live reward leaves a ledger for tables in which it is over. */
  lemma ReversalKeeps(b: Book, t: Tables, i: nat, over: RewardStatus)
    requires Inv(b, t) && i < |t.rewards| && LiveReward(t.rewards[i])
    requires over == RReversed || (over == RRejected && t.rewards[i].status == RPending)
    ensures var ks := if t.rewards[i].status == RPending then IssueKeys(i) else AllKeys(i);
            DistinctKeys(ks) && Inv(UndoKeys(b, ks), WithReward(t, i, t.rewards[i].(status := over)))
  {
    hide UndoKeys, LiveNetSum;
    var r := t.rewards[i];
    var ks := if r.status == RPending then IssueKeys(i) else AllKeys(i);
    UndoKeysKeeps(b, ks);
    var c := UndoKeys(b, ks);
    var closed := r.(status := over);
    forall a ensures Bal(c.balances, a) == Bal(b.balances, a) - RewardFoot(r, a) + RewardFoot(closed, a) {
      if r.status == RPending {
        PendingLiveNet(b, t, i, a);
      } else {
        ApprovedLiveNet(b, t, i, a);
      }
    }
    forall k | k in RewardKeys(i) ensures KeyOk(WithReward(t, i, closed), k, StateOf(c, k)) {
      assert KeyOk(t, k, StateOf(b, k));
      ClosedKeyOk(t, i, over, k, StateOf(b, k));
    }
    RewardStepKeeps(b, t, i, closed, c);
  }
}
