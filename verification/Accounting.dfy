/** What the refinement invariant says in the system's own terms: user balances and liabilities; and
    rewards that leave no trace. */
module Accounting {
  import opened Outcomes
  import opened Decimals
  import opened Accounts
  import opened Ledger
  import opened Sums
  import opened MoneyTables
  import opened Refinement
  import opened WithdrawalPolicy

  // ---------------------------------------------------------------- balances of a user

  function PendingCash(user: nat, c: Currency): Reward -> int {
    (r: Reward) => if r.status == RPending && r.user == user && r.currency == c then Positive(r.cash) else 0
  }

  function ApprovedCash(user: nat, c: Currency): Reward -> int {
    (r: Reward) => if r.status == RApproved && r.user == user && r.currency == c then Positive(r.cash) else 0
  }

  function ApprovedPoints(user: nat): Reward -> int {
    (r: Reward) => if r.status == RApproved && r.user == user then Positive(r.points) else 0
  }

  function PendingPoints(): Reward -> int {
    (r: Reward) => if r.status == RPending then Positive(r.points) else 0
  }

  function OpenAmount(user: nat, c: Currency): Withdrawal -> int {
    (w: Withdrawal) => if OpenWithdrawal(w) && w.user == user && w.currency == c then w.amount else 0
  }

  function UnrejectedAmount(user: nat, c: Currency): Withdrawal -> int {
    (w: Withdrawal) => if w.status != WRejected && w.user == user && w.currency == c then w.amount else 0
  }

  function CreditedAmount(user: nat, c: Currency): Deposit -> int {
    (d: Deposit) => if d.status == DConfirmed && d.user == user && c == USD then d.amount else 0
  }

  function AdjustedAmount(user: nat, c: Currency): AdjustmentRow -> int {
    (x: AdjustmentRow) => if x.user == user && x.currency == c then x.amount else 0
  }

  /** PENDING is the sum of the user's pending rewards, LOCKED of the open withdrawals. */
  lemma PendingAndLocked(b: Book, t: Tables, user: nat, c: Currency)
    requires Inv(b, t)
    ensures Bal(b.balances, UserAccount(user, Pending, c)) == Sum(t.rewards, PendingCash(user, c))
    ensures Bal(b.balances, UserAccount(user, Locked, c)) == Sum(t.withdrawals, OpenAmount(user, c))
  {
    var pending, locked := UserAccount(user, Pending, c), UserAccount(user, Locked, c);
    SumAgree(t.rewards, t.rewards, RewardFeet(pending), PendingCash(user, c));
    SumZero(t.withdrawals, WithdrawalFeet(pending));
    SumZero(t.deposits, DepositFeet(pending));
    SumZero(t.adjustments, AdjustmentFeet(pending));
    SumZero(t.rewards, RewardFeet(locked));
    SumAgree(t.withdrawals, t.withdrawals, WithdrawalFeet(locked), OpenAmount(user, c));
    SumZero(t.deposits, DepositFeet(locked));
    SumZero(t.adjustments, AdjustmentFeet(locked));
  }

  /** CASH is approved rewards, credited deposits and adjustments, less the withdrawals that were
      not rejected. */
  lemma CashBalance(b: Book, t: Tables, user: nat, c: Currency)
    requires Inv(b, t)
    ensures Bal(b.balances, UserAccount(user, Cash, c))
            == Sum(t.rewards, ApprovedCash(user, c)) + Sum(t.deposits, CreditedAmount(user, c))
               + Sum(t.adjustments, AdjustedAmount(user, c)) - Sum(t.withdrawals, UnrejectedAmount(user, c))
  {
    var cash := UserAccount(user, Cash, c);
    SumAgree(t.rewards, t.rewards, RewardFeet(cash), ApprovedCash(user, c));
    SumOpposite(t.withdrawals, WithdrawalFeet(cash), UnrejectedAmount(user, c));
    SumAgree(t.deposits, t.deposits, DepositFeet(cash), CreditedAmount(user, c));
    SumAgree(t.adjustments, t.adjustments, AdjustmentFeet(cash), AdjustedAmount(user, c));
  }

  /** POINTS is the user's approved points; the platform holds all pending points. */
  lemma PointsBalances(b: Book, t: Tables, user: nat)
    requires Inv(b, t)
    ensures Bal(b.balances, UserAccount(user, Points, POINTS)) == Sum(t.rewards, ApprovedPoints(user))
    ensures Bal(b.balances, PLATFORM_PENDING_POINTS) == Sum(t.rewards, PendingPoints())
  {
    var points := UserAccount(user, Points, POINTS);
    SumAgree(t.rewards, t.rewards, RewardFeet(points), ApprovedPoints(user));
    SumZero(t.withdrawals, WithdrawalFeet(points));
    SumZero(t.deposits, DepositFeet(points));
    SumZero(t.adjustments, AdjustmentFeet(points));
    SumAgree(t.rewards, t.rewards, RewardFeet(PLATFORM_PENDING_POINTS), PendingPoints());
    SumZero(t.withdrawals, WithdrawalFeet(PLATFORM_PENDING_POINTS));
    SumZero(t.deposits, DepositFeet(PLATFORM_PENDING_POINTS));
    SumZero(t.adjustments, AdjustmentFeet(PLATFORM_PENDING_POINTS));
  }

  // ---------------------------------------------------------------- liability

  /** No row of the tables ever touches an account that is neither owed nor platform cash. */
  lemma UntouchedAccount(t: Tables, a: Account)
    requires a.currency != POINTS && a != PlatformCash(a.currency)
    requires a.owner == System || !OwedKind(a.kind)
    ensures Expected(t, a) == 0
  {
    SumZero(t.rewards, RewardFeet(a));
    SumZero(t.withdrawals, WithdrawalFeet(a));
    SumZero(t.deposits, DepositFeet(a));
    SumZero(t.adjustments, AdjustmentFeet(a));
  }

  /** What users are owed and what the platform's cash account shows cancel out. */
  lemma LiabilityMirrorsPlatformCash(b: Book, t: Tables, c: Currency)
    requires Inv(b, t) && c != POINTS
    ensures Liability(b.balances, c) + Bal(b.balances, PlatformCash(c)) == 0
  {
    var all, owed := InCurrency(b.balances, c), OwedAccounts(b.balances, c);
    var cash := PlatformCash(c);
    var others := all - owed - {cash};
    forall a | a in others ensures b.balances[a] == 0 {
      UntouchedAccount(t, a);
      assert Bal(b.balances, a) == Expected(t, a);
    }
    SumOverZero(b.balances, others);
    assert CurrencyTotal(b.balances, c) == 0;
    if cash in b.balances {
      assert all == (owed + others) + {cash};
      SumOverSplit(b.balances, owed + others, {cash});
      SumOverPick(b.balances, {cash}, cash);
      assert {cash} - {cash} == {};
    } else {
      assert all == owed + others;
    }
    SumOverSplit(b.balances, owed, others);
  }

  function LiveCash(c: Currency): Reward -> int {
    (r: Reward) => if LiveReward(r) && r.currency == c then Positive(r.cash) else 0
  }

  function PaidAmount(c: Currency): Withdrawal -> int {
    (w: Withdrawal) => if w.status == WPaid && w.currency == c then w.amount else 0
  }

  function ConfirmedAmount(c: Currency): Deposit -> int {
    (d: Deposit) => if d.status == DConfirmed && c == USD then d.amount else 0
  }

  function AdjustmentIn(c: Currency): AdjustmentRow -> int {
    (x: AdjustmentRow) => if x.currency == c then x.amount else 0
  }

  /** The liability is live rewards, confirmed deposits and adjustments, less paid withdrawals. */
  lemma LiabilityFromTables(b: Book, t: Tables, c: Currency)
    requires Inv(b, t) && c != POINTS
    ensures Liability(b.balances, c)
            == Sum(t.rewards, LiveCash(c)) + Sum(t.deposits, ConfirmedAmount(c))
               + Sum(t.adjustments, AdjustmentIn(c)) - Sum(t.withdrawals, PaidAmount(c))
  {
    var cash := PlatformCash(c);
    LiabilityMirrorsPlatformCash(b, t, c);
    assert Bal(b.balances, cash) == Expected(t, cash);
    SumOpposite(t.rewards, RewardFeet(cash), LiveCash(c));
    SumAgree(t.withdrawals, t.withdrawals, WithdrawalFeet(cash), PaidAmount(c));
    SumOpposite(t.deposits, DepositFeet(cash), ConfirmedAmount(c));
    SumOpposite(t.adjustments, AdjustmentFeet(cash), AdjustmentIn(c));
  }

  // ---------------------------------------------------------------- reversal neutrality

  /** The calls that are about reward `r`: its issue, repeated awards of its claim, its transitions. */
  predicate Concerns(t: Tables, x: Action, r: nat) {
    match x
    case DoApproveReward(i) => i == r
    case DoHold(i) => i == r
    case DoReject(i) => i == r
    case DoReverse(i) => i == r
    case DoIssue(q) =>
      if r < |t.rewards| then SameClaim(t.rewards[r], q.user, q.source, q.ref)
      else r == |t.rewards| && IssueReward(t, q).Ok? && IssueReward(t, q).value.created
    case _ => false
  }

  function Shift(i: nat, r: nat): nat {
    if i > r then i - 1 else i
  }

  /** The same call where row `r` never existed. */
  function Renumbered(x: Action, r: nat): Action {
    match x
    case DoApproveReward(i) => DoApproveReward(Shift(i, r))
    case DoHold(i) => DoHold(Shift(i, r))
    case DoReject(i) => DoReject(Shift(i, r))
    case DoReverse(i) => DoReverse(Shift(i, r))
    case _ => x
  }

  /** The run without the calls that are about reward `r`. */
  ghost function RunWithout(t: Tables, xs: seq<Action>, r: nat): seq<Action> {
    if xs == [] then []
    else
      var n := |xs| - 1;
      var rest := RunWithout(t, xs[..n], r);
      if Concerns(Run(t, xs[..n]), xs[n], r) then rest else rest + [Renumbered(xs[n], r)]
  }

  function DropRow(t: Tables, r: nat): Tables {
    if r < |t.rewards| then t.(rewards := t.rewards[..r] + t.rewards[r + 1..]) else t
  }

  lemma ExpectedWithoutRow(t: Tables, r: nat, a: Account)
    requires r < |t.rewards|
    ensures Expected(DropRow(t, r), a) == Expected(t, a) - RewardFoot(t.rewards[r], a)
  {
    SumRemove(t.rewards, r, RewardFeet(a));
  }

  /** Looking up a claim other than that of row `r` does not depend on row `r`. */
  lemma FindClaimWithoutRow(t: Tables, r: nat, q: Issue)
    requires r < |t.rewards| && !SameClaim(t.rewards[r], q.user, q.source, q.ref)
    ensures FindClaim(DropRow(t, r).rewards, q.user, q.source, q.ref) >= 0
            <==> FindClaim(t.rewards, q.user, q.source, q.ref) >= 0
  {
    var rest := DropRow(t, r).rewards;
    var i, j := FindClaim(t.rewards, q.user, q.source, q.ref), FindClaim(rest, q.user, q.source, q.ref);
    if i >= 0 {
      assert rest[Shift(i, r)] == t.rewards[i];
    }
    if j >= 0 {
      assert rest[j] == t.rewards[if j < r then j else j + 1];
    }
  }

  lemma ConcernedStepVanishes(t: Tables, x: Action, r: nat)
    requires Concerns(t, x, r)
    ensures DropRow(Step(t, x), r) == DropRow(t, r)
  {
    var u := Step(t, x);
    if r < |t.rewards| {
      assert |u.rewards| == |t.rewards| && u.rewards[..r] == t.rewards[..r] && u.rewards[r + 1..] == t.rewards[r + 1..];
    } else if x.DoIssue? {
      assert u.rewards[..r] + u.rewards[r + 1..] == t.rewards;
    }
  }

  lemma DropUpdated(t: Tables, r: nat, i: nat, row: Reward)
    requires i < |t.rewards| && i != r && r < |t.rewards|
    ensures Shift(i, r) < |DropRow(t, r).rewards| && DropRow(t, r).rewards[Shift(i, r)] == t.rewards[i]
    ensures DropRow(WithReward(t, i, row), r) == WithReward(DropRow(t, r), Shift(i, r), row)
  {
  }

  predicate OnOneReward(x: Action) {
    x.DoApproveReward? || x.DoHold? || x.DoReject? || x.DoReverse?
  }

  /** What such a call makes of its row, if it does not raise. */
  function RowAfter(x: Action, r: Reward): Reward {
    match x
    case DoApproveReward(_) => if r.status == RPending then r.(status := RApproved) else r
    case DoHold(_) => if r.status == RPending then r.(held := true) else r
    case DoReject(_) => if r.status == RPending then r.(status := RRejected) else r
    case DoReverse(_) => if LiveReward(r) then r.(status := RReversed) else r
    case _ => r
  }

  lemma OneRewardStep(t: Tables, x: Action)
    requires OnOneReward(x)
    ensures Step(t, x) ==
        if x.reward < |t.rewards| then WithReward(t, x.reward, RowAfter(x, t.rewards[x.reward])) else t
  {
    hide IssueReward, ApproveDue, RequestWithdrawal, ApproveWithdrawal, MarkPaid, RejectWithdrawal;
    hide CreateDeposit, ConfirmDeposit, ExpireDeposits, Adjust, Expected;
    assert x.reward < |t.rewards| ==> WithReward(t, x.reward, t.rewards[x.reward]).rewards == t.rewards;
  }

  lemma OtherRewardStep(t: Tables, x: Action, r: nat)
    requires !Concerns(t, x, r) && OnOneReward(x)
    ensures DropRow(Step(t, x), r) == Step(DropRow(t, r), Renumbered(x, r))
  {
    hide Step, RowAfter;
    OneRewardStep(t, x);
    OneRewardStep(DropRow(t, r), Renumbered(x, r));
    if x.reward < |t.rewards| && r < |t.rewards| {
      var row := t.rewards[x.reward];
      DropUpdated(t, r, x.reward, RowAfter(x, row));
      SameRowAfter(x, r, row);
    }
  }

  lemma SameRowAfter(x: Action, r: nat, row: Reward)
    ensures RowAfter(Renumbered(x, r), row) == RowAfter(x, row)
  {
  }

  lemma DueStep(t: Tables, cutoff: int, manualRules: set<nat>, r: nat)
    ensures DropRow(ApproveDue(t, cutoff, manualRules), r) == ApproveDue(DropRow(t, r), cutoff, manualRules)
  {
    var u, v := DropRow(ApproveDue(t, cutoff, manualRules), r), ApproveDue(DropRow(t, r), cutoff, manualRules);
    forall i | 0 <= i < |u.rewards| ensures u.rewards[i] == v.rewards[i] {
      var j := if i < r || |t.rewards| <= r then i else i + 1;
      assert DropRow(t, r).rewards[i] == t.rewards[j];
    }
    assert u.rewards == v.rewards;
  }

  predicate OnOneWithdrawal(x: Action) {
    x.DoApproveWithdrawal? || x.DoPay? || x.DoRejectWithdrawal?
  }

  lemma WithdrawalStep(t: Tables, x: Action, r: nat)
    requires OnOneWithdrawal(x)
    ensures DropRow(Step(t, x), r) == Step(DropRow(t, r), x)
  {
    hide IssueReward, RequestWithdrawal, ApproveDue, Expected, Approvers, Reviewed;
    hide ApproveReward, HoldReward, RejectReward, ReverseReward, CreateDeposit, ConfirmDeposit, ExpireDeposits, Adjust;
  }

  lemma UnrelatedStep(t: Tables, x: Action, r: nat)
    requires !x.DoIssue? && !x.DoRequest? && !x.DoApproveDue? && !OnOneReward(x)
    ensures DropRow(Step(t, x), r) == Step(DropRow(t, r), x)
  {
    if OnOneWithdrawal(x) {
      WithdrawalStep(t, x, r);
    } else {
      hide IssueReward, RequestWithdrawal, ApproveDue, Expected;
      hide ApproveReward, HoldReward, RejectReward, ReverseReward, ApproveWithdrawal, MarkPaid, RejectWithdrawal;
      assert DropRow(Step(t, x), r) == Step(DropRow(t, r), x);
    }
  }

  lemma OtherIssueStep(t: Tables, q: Issue, r: nat)
    requires !Concerns(t, DoIssue(q), r)
    ensures DropRow(Step(t, DoIssue(q)), r) == Step(DropRow(t, r), DoIssue(q))
  {
    hide FindClaim, RequestWithdrawal, ApproveDue, Expected;
    if r < |t.rewards| {
      FindClaimWithoutRow(t, r, q);
      var u := Step(t, DoIssue(q));
      assert u.rewards[..r] == t.rewards[..r];
      if u != t {
        assert u.rewards[r + 1..] == t.rewards[r + 1..] + [NewReward(q)];
      }
    }
  }

  /** A withdrawal request does not live on the cash of reward `r`: if it is accepted, the cash that
      is there without the reward covers it too.  A frozen account has nothing available either way. */
  ghost predicate CoveredWithout(t: Tables, x: Action, r: nat) {
    x.DoRequest? && r < |t.rewards| ==>
      var q := x.request;
      var cash := UserAccount(q.user, Cash, RequestCurrency(t, q));
      RequestWithdrawal(t, q, Expected(t, cash)).Ok? && !q.frozen ==>
        q.amount <= Expected(t, cash) - RewardFoot(t.rewards[r], cash)
  }

  /** With less cash a request does the same exactly if it is refused anyway or still covered. */
  lemma LessCashDecidesTheSame(t: Tables, q: Request, low: int, high: int)
    requires low <= high
    ensures OrSame(RequestWithdrawal(t, q, low), t) == OrSame(RequestWithdrawal(t, q, high), t)
            <==> (RequestWithdrawal(t, q, high).Ok? && !q.frozen ==> q.amount <= low)
  {
    hide WithdrawalPolicy.Decide, RecentWithdrawal;
    var c := RequestCurrency(t, q);
    var less, more := CircumstancesOf(t, q, low), CircumstancesOf(t, q, high);
    AcceptedIff(q.amount, c, q.settings, less);
    AcceptedIff(q.amount, c, q.settings, more);
  }

  /** A request does the same with and without row `r` exactly if it does not live on its cash. */
  lemma OtherRequestStepIff(t: Tables, q: Request, r: nat)
    ensures DropRow(Step(t, DoRequest(q)), r) == Step(DropRow(t, r), DoRequest(q))
            <==> CoveredWithout(t, DoRequest(q), r)
  {
    hide Expected, WithdrawalPolicy.Decide;
    if r < |t.rewards| {
      var cash := UserAccount(q.user, Cash, RequestCurrency(t, q));
      var high := Expected(t, cash);
      var low := high - RewardFoot(t.rewards[r], cash);
      ExpectedWithoutRow(t, r, cash);
      LessCashDecidesTheSame(t, q, low, high);
      SameRequestWithoutRow(t, q, r, low);
    }
  }

  lemma SameRequestWithoutRow(t: Tables, q: Request, r: nat, cash: int)
    requires r < |t.rewards|
    ensures OrSame(RequestWithdrawal(DropRow(t, r), q, cash), DropRow(t, r))
            == DropRow(OrSame(RequestWithdrawal(t, q, cash), t), r)
    ensures var u := OrSame(RequestWithdrawal(t, q, cash), t); u == t.(withdrawals := u.withdrawals)
  {
    hide WithdrawalPolicy.Decide;
  }

  lemma StepWithoutRow(t: Tables, x: Action, r: nat)
    requires !Concerns(t, x, r)
    ensures DropRow(Step(t, x), r) == Step(DropRow(t, r), Renumbered(x, r)) <==> CoveredWithout(t, x, r)
  {
    hide Step, DropRow;
    if x.DoIssue? {
      OtherIssueStep(t, x.issue, r);
    } else if x.DoRequest? {
      OtherRequestStepIff(t, x.request, r);
    } else if x.DoApproveDue? {
      DueStep(t, x.cutoff, x.manualRules, r);
      StepOfDue(t, x);
      StepOfDue(DropRow(t, r), x);
    } else if OnOneReward(x) {
      OtherRewardStep(t, x, r);
    } else {
      UnrelatedStep(t, x, r);
    }
  }

  lemma StepOfDue(t: Tables, x: Action)
    requires x.DoApproveDue?
    ensures Step(t, x) == ApproveDue(t, x.cutoff, x.manualRules)
  {
  }

  ghost predicate CoveredAt(t: Tables, xs: seq<Action>, r: nat, n: nat)
    requires n < |xs|
  {
    CoveredWithout(Run(t, xs[..n]), xs[n], r)
  }

  /** After `n` calls, the run without the reward has just its row missing. */
  ghost predicate RowMissing(t: Tables, xs: seq<Action>, r: nat, n: nat)
    requires n <= |xs|
  {
    Run(t, RunWithout(t, xs[..n], r)) == DropRow(Run(t, xs[..n]), r)
  }

  lemma RowMissingStep(t: Tables, xs: seq<Action>, r: nat, n: nat)
    requires n < |xs| && RowMissing(t, xs, r, n)
    ensures RowMissing(t, xs, r, n + 1) <==> CoveredAt(t, xs, r, n)
  {
    hide DropRow, Step, Expected;
    var before, x, rest := Run(t, xs[..n]), xs[n], RunWithout(t, xs[..n], r);
    assert xs[..n + 1][..n] == xs[..n];
    if Concerns(before, x, r) {
      ConcernedStepVanishes(before, x, r);
    } else {
      assert (rest + [Renumbered(x, r)])[..|rest|] == rest;
      StepWithoutRow(before, x, r);
    }
  }

  lemma {:induction false} RowMissingIfCovered(t: Tables, xs: seq<Action>, r: nat, m: nat)
    requires |t.rewards| <= r && m <= |xs|
    requires forall n | 0 <= n < m :: CoveredAt(t, xs, r, n)
    ensures RowMissing(t, xs, r, m)
  {
    if m == 0 {
      assert xs[..0] == [];
    } else {
      hide RowMissing, CoveredAt;
      RowMissingIfCovered(t, xs, r, m - 1);
      RowMissingStep(t, xs, r, m - 1);
    }
  }

  /** Leaving out all calls about a reward gives, call by call, the run with just its row missing:
      exactly if no withdrawal request of the run lives on the reward's cash. */
  lemma RunWithoutDropsRowIff(t: Tables, xs: seq<Action>, r: nat)
    requires |t.rewards| <= r
    ensures (forall n | 0 <= n <= |xs| :: RowMissing(t, xs, r, n))
            <==> (forall n | 0 <= n < |xs| :: CoveredAt(t, xs, r, n))
  {
    hide RowMissing, CoveredAt;
    if forall n | 0 <= n < |xs| :: CoveredAt(t, xs, r, n) {
      forall n | 0 <= n <= |xs| ensures RowMissing(t, xs, r, n) {
        RowMissingIfCovered(t, xs, r, n);
      }
    }
    if forall n | 0 <= n <= |xs| :: RowMissing(t, xs, r, n) {
      forall n | 0 <= n < |xs| ensures CoveredAt(t, xs, r, n) {
        RowMissingStep(t, xs, r, n);
      }
    }
  }

  lemma ClosedHasNoFoot(r: Reward)
    requires !LiveReward(r)
    ensures forall a :: RewardFoot(r, a) == 0
  {
  }

  /** Reversal neutrality: once a reward is reversed or rejected, every balance is that of the run
      without it, however its calls were interleaved with all others, as long as no withdrawal
      request lived on its cash meanwhile. */
  lemma ReversedRewardLeavesNoTrace(t: Tables, xs: seq<Action>, r: nat)
    requires |t.rewards| <= r < |Run(t, xs).rewards|
    requires !LiveReward(Run(t, xs).rewards[r])
    requires forall n | 0 <= n < |xs| :: CoveredAt(t, xs, r, n)
    ensures forall a :: Expected(Run(t, RunWithout(t, xs, r)), a) == Expected(Run(t, xs), a)
  {
    hide CoveredAt, Concerns;
    RunWithoutDropsRowIff(t, xs, r);
    assert RowMissing(t, xs, r, |xs|) && xs[..|xs|] == xs;
    var closed := Run(t, xs).rewards[r];
    assert forall a :: RewardFoot(closed, a) == 0 by {
      ClosedHasNoFoot(closed);
    }
    forall a ensures Expected(Run(t, RunWithout(t, xs, r)), a) == Expected(Run(t, xs), a) {
      ExpectedWithoutRow(Run(t, xs), r, a);
    }
  }

  /** A repeated reversal changes nothing. */
  lemma ReversalIsIdempotent(t: Tables, i: nat)
    requires ReverseReward(t, i).Ok?
    ensures var once := ReverseReward(t, i).value; ReverseReward(once, i) == Ok(once)
  {
  }
}
