/** What every run of the money tables keeps: lifecycles, approvals, claims and deposits. */
module Lifecycles {
  import opened Outcomes
  import opened Decimals
  import RewardMath
  import opened MoneyTables

  // ---------------------------------------------------------------- how rows may change

  predicate RewardEvolves(r: Reward, s: Reward) {
    && s == r.(status := s.status, held := s.held)
    && (r.status != RPending ==> s.held == r.held)
    && (r.status == RApproved ==> s.status == RApproved || s.status == RReversed)
    && (r.status == RRejected || r.status == RReversed ==> s.status == r.status)
  }

  /** PAID and REJECTED are final; user, amount, currency and terms never change. */
  predicate WithdrawalEvolves(w: Withdrawal, v: Withdrawal) {
    && v == w.(status := v.status, approvedBy := v.approvedBy, secondApprover := v.secondApprover)
    && (w.status == WPaid || w.status == WRejected ==> v == w)
    && (w.status == WProcessing ==> v.status in {WProcessing, WPaid, WRejected})
  }

  predicate DepositEvolves(d: Deposit, e: Deposit) {
    && e == d.(status := e.status)
    && (d.status in {DConfirmed, DExpired, DFailed, DRefunded} ==> e.status == d.status)
  }

  ghost predicate RowsEvolve(t: Tables, u: Tables) {
    && |t.rewards| <= |u.rewards| && |t.withdrawals| <= |u.withdrawals| && |t.deposits| <= |u.deposits|
    && u.wallets == t.wallets
    && t.adjustments <= u.adjustments
    && (forall i | 0 <= i < |t.rewards| :: RewardEvolves(t.rewards[i], u.rewards[i]))
    && (forall i | 0 <= i < |t.withdrawals| :: WithdrawalEvolves(t.withdrawals[i], u.withdrawals[i]))
    && (forall i | 0 <= i < |t.deposits| :: DepositEvolves(t.deposits[i], u.deposits[i]))
  }

  lemma StepEvolvesRewards(t: Tables, x: Action)
    ensures var u := Step(t, x);
            |t.rewards| <= |u.rewards| && forall i | 0 <= i < |t.rewards| :: RewardEvolves(t.rewards[i], u.rewards[i])
  {
  }

  lemma StepEvolvesWithdrawals(t: Tables, x: Action)
    ensures var u := Step(t, x);
            && |t.withdrawals| <= |u.withdrawals|
            && forall i | 0 <= i < |t.withdrawals| :: WithdrawalEvolves(t.withdrawals[i], u.withdrawals[i])
  {
  }

  lemma StepEvolvesDeposits(t: Tables, x: Action)
    ensures var u := Step(t, x);
            && |t.deposits| <= |u.deposits| && u.wallets == t.wallets && t.adjustments <= u.adjustments
            && forall i | 0 <= i < |t.deposits| :: DepositEvolves(t.deposits[i], u.deposits[i])
  {
  }

  lemma StepEvolves(t: Tables, x: Action)
    ensures RowsEvolve(t, Step(t, x))
  {
    StepEvolvesRewards(t, x);
    StepEvolvesWithdrawals(t, x);
    StepEvolvesDeposits(t, x);
  }

  /** Over every run, every row only moves forward in its lifecycle and keeps its identity. */
  lemma {:induction false} RunEvolves(t: Tables, xs: seq<Action>)
    ensures RowsEvolve(t, Run(t, xs))
  {
    if xs != [] {
      var n := |xs| - 1;
      RunEvolves(t, xs[..n]);
      StepEvolves(Run(t, xs[..n]), xs[n]);
    }
  }

  /** Rewards are only created by issuing them. */
  lemma NewRewardsAreIssued(t: Tables, x: Action, r: nat)
    requires |t.rewards| <= r < |Step(t, x).rewards|
    ensures x.DoIssue? && Step(t, x).rewards[r].ref == x.issue.ref
  {
  }

  // ---------------------------------------------------------------- one claim, one reward

  /** At most one reward per user, source and (non-empty) source reference. */
  ghost predicate UniqueClaims(rewards: seq<Reward>) {
    forall i, j | 0 <= i < j < |rewards| ::
      !SameClaim(rewards[i], rewards[j].user, rewards[j].source, rewards[j].ref)
  }

  lemma NewRewardKeepsClaims(t: Tables, q: Issue)
    requires UniqueClaims(t.rewards) && FindClaim(t.rewards, q.user, q.source, q.ref) < 0
    ensures UniqueClaims(t.rewards + [NewReward(q)])
  {
  }

  lemma UpdatedRewardKeepsClaims(rewards: seq<Reward>, i: nat, r: Reward)
    requires UniqueClaims(rewards) && i < |rewards|
    requires r == rewards[i].(status := r.status, held := r.held)
    ensures UniqueClaims(rewards[i := r])
  {
    var after := rewards[i := r];
    forall j, k | 0 <= j < k < |after|
      ensures !SameClaim(after[j], after[k].user, after[k].source, after[k].ref)
    {
      assert !SameClaim(rewards[j], rewards[k].user, rewards[k].source, rewards[k].ref);
    }
  }

  lemma StepKeepsUniqueClaims(t: Tables, x: Action)
    requires UniqueClaims(t.rewards)
    ensures UniqueClaims(Step(t, x).rewards)
  {
    var u := Step(t, x);
    StepEvolves(t, x);
    if x.DoIssue? && FindClaim(t.rewards, x.issue.user, x.issue.source, x.issue.ref) < 0 {
      NewRewardKeepsClaims(t, x.issue);
    } else {
      forall j, k | 0 <= j < k < |u.rewards|
        ensures !SameClaim(u.rewards[j], u.rewards[k].user, u.rewards[k].source, u.rewards[k].ref)
      {
        assert RewardEvolves(t.rewards[j], u.rewards[j]) && RewardEvolves(t.rewards[k], u.rewards[k]);
        assert !SameClaim(t.rewards[j], t.rewards[k].user, t.rewards[k].source, t.rewards[k].ref);
      }
    }
  }

  lemma {:induction false} ClaimsStayUnique(t: Tables, xs: seq<Action>)
    requires UniqueClaims(t.rewards)
    ensures UniqueClaims(Run(t, xs).rewards)
  {
    if xs != [] {
      ClaimsStayUnique(t, xs[..|xs| - 1]);
      StepKeepsUniqueClaims(Run(t, xs[..|xs| - 1]), xs[|xs| - 1]);
    }
  }

  /** Awarding again for a reference that already paid changes nothing, after any run in between. */
  lemma AwardIsIdempotent(t: Tables, q: Issue, xs: seq<Action>, again: Issue)
    requires q.ref != NoRef && IssueReward(t, q).Ok?
    requires again.user == q.user && again.source == q.source && again.ref == q.ref
    requires UniqueClaims(t.rewards)
    ensures var first := IssueReward(t, q).value; var later := Run(first.tables, xs);
            IssueReward(later, again) == Ok(Issued(later, first.reward, false))
  {
    var first := IssueReward(t, q).value;
    var later := Run(first.tables, xs);
    assert first.tables == Step(t, DoIssue(q));
    StepKeepsUniqueClaims(t, DoIssue(q));
    ClaimsStayUnique(first.tables, xs);
    RunEvolves(first.tables, xs);
    assert RewardEvolves(first.tables.rewards[first.reward], later.rewards[first.reward]);
    assert SameClaim(later.rewards[first.reward], q.user, q.source, q.ref);
    var found := FindClaim(later.rewards, q.user, q.source, q.ref);
    OneRowPerClaim(later.rewards, found, first.reward, q.user, q.source, q.ref);
  }

  lemma OneRowPerClaim(rewards: seq<Reward>, i: int, j: int, user: nat, source: RewardMath.Source, ref: Ref)
    requires UniqueClaims(rewards) && 0 <= i < |rewards| && 0 <= j < |rewards|
    ensures SameClaim(rewards[i], user, source, ref) && SameClaim(rewards[j], user, source, ref) ==> i == j
  {
    if i < j {
      assert !SameClaim(rewards[i], rewards[j].user, rewards[j].source, rewards[j].ref);
    } else if j < i {
      assert !SameClaim(rewards[j], rewards[i].user, rewards[i].source, rewards[i].ref);
    }
  }

  // ---------------------------------------------------------------- two approvers

  /** A second approver is recorded only beside a different first one. */
  predicate ApproversDiffer(w: Withdrawal) {
    w.secondApprover.Some? ==> w.approvedBy.Some? && w.approvedBy != w.secondApprover
  }

  /** A withdrawal that needs two approvals is on its way or paid only with both of them. */
  predicate ProperlyApproved(w: Withdrawal) {
    && ApproversDiffer(w)
    && (w.terms.dual && w.status in {WProcessing, WPaid} ==> w.approvedBy.Some? && w.secondApprover.Some?)
    && (w.status in {WRequested, WUnderReview} || !w.terms.dual ==> w.secondApprover.None?)
    && w.status !in {WApproved, WFailed, WCancelled}
  }

  ghost predicate AllProperlyApproved(t: Tables) {
    forall i | 0 <= i < |t.withdrawals| :: ProperlyApproved(t.withdrawals[i])
  }

  /** Calls as the admin view makes them: no explicit second approver. */
  predicate AdminViewCall(x: Action) {
    x.DoApproveWithdrawal? ==> x.second == None
  }

  /** The call does not name the first approver again as the second one, on behalf of somebody else. */
  predicate NamesAnother(w: Withdrawal, approver: Option<nat>, second: Option<nat>) {
    w.terms.dual && approver.Some? && w.approvedBy.Some? && approver != w.approvedBy ==> second != w.approvedBy
  }

  predicate ProperCall(t: Tables, x: Action) {
    x.DoApproveWithdrawal? && x.withdrawal < |t.withdrawals|
    && t.withdrawals[x.withdrawal].status in {WRequested, WUnderReview} ==>
      NamesAnother(t.withdrawals[x.withdrawal], x.approver, x.second)
  }

  /** One person is recorded as both approvers of a withdrawal that was let through. */
  predicate ApprovedTwiceByOne(w: Withdrawal) {
    w.approvedBy.Some? && w.approvedBy == w.secondApprover && w.status in {WProcessing, WPaid, WRejected}
  }

  /** A call keeps the approvers of an open withdrawal apart exactly when it names another person. */
  lemma ApprovalIsProperIff(w: Withdrawal, approver: Option<nat>, second: Option<nat>)
    requires w.status in {WRequested, WUnderReview} && ProperlyApproved(w)
    ensures var v := Reviewed(Approvers(w, approver, second));
            && (ProperlyApproved(v) <==> NamesAnother(w, approver, second))
            && (!ProperlyApproved(v) ==> ApprovedTwiceByOne(v))
  {
  }

  lemma ProperStepKeepsApprovals(t: Tables, x: Action)
    requires AllProperlyApproved(t) && ProperCall(t, x)
    ensures AllProperlyApproved(Step(t, x))
  {
    hide ProperlyApproved, Reviewed, Approvers, RequestWithdrawal, NamesAnother, Expected;
    var u := Step(t, x);
    forall i | 0 <= i < |u.withdrawals| ensures ProperlyApproved(u.withdrawals[i]) {
      assert i < |t.withdrawals| ==> ProperlyApproved(t.withdrawals[i]);
      WithdrawalStepIsProper(t, x, i);
    }
  }

  lemma WithdrawalStepIsProper(t: Tables, x: Action, i: nat)
    requires ProperCall(t, x) && i < |Step(t, x).withdrawals|
    requires i < |t.withdrawals| ==> ProperlyApproved(t.withdrawals[i])
    ensures ProperlyApproved(Step(t, x).withdrawals[i])
  {
  }

  ghost predicate SomeoneApprovedTwice(t: Tables) {
    exists i :: 0 <= i < |t.withdrawals| && ApprovedTwiceByOne(t.withdrawals[i])
  }

  lemma ImproperStepIsSeen(t: Tables, x: Action)
    requires AllProperlyApproved(t) && !ProperCall(t, x)
    ensures SomeoneApprovedTwice(Step(t, x))
  {
    ApprovalIsProperIff(t.withdrawals[x.withdrawal], x.approver, x.second);
    assert ApprovedTwiceByOne(Step(t, x).withdrawals[x.withdrawal]);
  }

  lemma ApprovedTwiceByOneForGood(t: Tables, x: Action, i: nat)
    requires i < |t.withdrawals| && ApprovedTwiceByOne(t.withdrawals[i])
    ensures i < |Step(t, x).withdrawals| && ApprovedTwiceByOne(Step(t, x).withdrawals[i])
  {
    StepEvolvesWithdrawals(t, x);
    assert WithdrawalEvolves(t.withdrawals[i], Step(t, x).withdrawals[i]);
  }

  lemma TwiceIsImproper(t: Tables)
    ensures SomeoneApprovedTwice(t) ==> !AllProperlyApproved(t)
  {
    if i :| 0 <= i < |t.withdrawals| && ApprovedTwiceByOne(t.withdrawals[i]) {
      assert !ProperlyApproved(t.withdrawals[i]);
    }
  }

  ghost predicate ProperCalls(t: Tables, xs: seq<Action>) {
    forall n | 0 <= n < |xs| :: ProperCall(Run(t, xs[..n]), xs[n])
  }

  /** The exact condition over whole runs: as long as every call names another person, dual approval
      means two different approvers; the first call that does not leaves a withdrawal with one person
      as both of its approvers for good. */
  lemma {:induction false} DualApprovalIff(wallets: map<nat, Currency>, xs: seq<Action>)
    ensures ProperCalls(Fresh(wallets), xs) <==> AllProperlyApproved(Run(Fresh(wallets), xs))
    ensures !ProperCalls(Fresh(wallets), xs) ==> SomeoneApprovedTwice(Run(Fresh(wallets), xs))
  {
    hide ProperCall, ProperlyApproved, ApprovedTwiceByOne, Step;
    TwiceIsImproper(Run(Fresh(wallets), xs));
    if xs != [] {
      var t, n := Fresh(wallets), |xs| - 1;
      var before, x := Run(t, xs[..n]), xs[n];
      DualApprovalIff(wallets, xs[..n]);
      assert forall m | 0 <= m <= n :: xs[..n][..m] == xs[..m];
      if !ProperCalls(t, xs[..n]) {
        var i :| 0 <= i < |before.withdrawals| && ApprovedTwiceByOne(before.withdrawals[i]);
        ApprovedTwiceByOneForGood(before, x, i);
      } else if ProperCall(before, x) {
        ProperStepKeepsApprovals(before, x);
      } else {
        ImproperStepIsSeen(before, x);
      }
    }
  }

  /** On every run of the admin view's calls, PROCESSING or PAID under dual approval means two
      different recorded approvers; APPROVED, FAILED and CANCELLED are never entered. */
  lemma DualApprovalOnEveryRun(wallets: map<nat, Currency>, xs: seq<Action>)
    requires forall x | x in xs :: AdminViewCall(x)
    ensures AllProperlyApproved(Run(Fresh(wallets), xs))
  {
    hide Run, Step;
    DualApprovalIff(wallets, xs);
    forall n | 0 <= n < |xs| ensures ProperCall(Run(Fresh(wallets), xs[..n]), xs[n]) {
      assert xs[n] in xs;
    }
  }

  /** Two calls, the second one naming administrator 1 as second approver, let administrator 1
      count twice. */
  lemma ExplicitSecondApproverCanRepeat(w: Withdrawal)
    requires w.status == WRequested && w.terms.dual && w.approvedBy.None? && w.secondApprover.None?
    ensures var once := Reviewed(Approvers(w, Some(1), None));
            var twice := Reviewed(Approvers(once, Some(2), Some(1)));
            once.status == WUnderReview && twice.status == WProcessing
            && twice.approvedBy == twice.secondApprover == Some(1)
  {
  }

  // ---------------------------------------------------------------- deposits

  predicate Lapse(x: Action, expiresAt: int) {
    x.DoExpire? && expiresAt <= x.now
  }

  /** The fate of one awaiting deposit, decided by the calls that concern it. */
  function Fate(xs: seq<Action>, i: nat, expiresAt: int, usdWallet: bool): DepositStatus {
    if xs == [] then DAwaiting
    else FateStep(Fate(xs[..|xs| - 1], i, expiresAt, usdWallet), xs[|xs| - 1], i, expiresAt, usdWallet)
  }

  function FateStep(before: DepositStatus, x: Action, i: nat, expiresAt: int, usdWallet: bool): DepositStatus {
    if before != DAwaiting then before
    else if x == DoConfirm(i) && usdWallet then DConfirmed
    else if Lapse(x, expiresAt) then DExpired
    else DAwaiting
  }

  lemma DepositStep(t: Tables, x: Action, i: nat)
    requires i < |t.deposits| && t.deposits[i].amount != 0
    requires t.deposits[i].status in {DAwaiting, DConfirmed, DExpired}
    ensures var d := t.deposits[i]; var u := Step(t, x);
            && i < |u.deposits|
            && u.deposits[i] == d.(status := FateStep(d.status, x, i, d.expiresAt, WalletCurrency(t, d.user) == USD))
  {
    StepEvolves(t, x);
    if x.DoExpire? {
      assert Step(t, x).deposits[i] == ExpiredIfLapsed(t.deposits[i], x.now);
    }
  }

  /** Whatever else happens in a run, a deposit ends as its own confirm and expire calls decide. */
  lemma {:induction false} DepositRun(t: Tables, xs: seq<Action>, i: nat)
    requires i < |t.deposits| && t.deposits[i].status == DAwaiting && t.deposits[i].amount != 0
    ensures var d := t.deposits[i]; var u := Run(t, xs);
            && u.wallets == t.wallets && i < |u.deposits|
            && u.deposits[i].status in {DAwaiting, DConfirmed, DExpired}
            && u.deposits[i] == d.(status := Fate(xs, i, d.expiresAt, WalletCurrency(t, d.user) == USD))
  {
    if xs != [] {
      var before, x := Run(t, xs[..|xs| - 1]), xs[|xs| - 1];
      DepositRun(t, xs[..|xs| - 1], i);
      StepEvolves(before, x);
      DepositStep(before, x, i);
    }
  }

  ghost predicate ConfirmedInTime(xs: seq<Action>, i: nat, expiresAt: int) {
    exists k :: 0 <= k < |xs| && xs[k] == DoConfirm(i) && NoLapse(xs[..k], expiresAt)
  }

  predicate NoLapse(xs: seq<Action>, expiresAt: int) {
    forall x | x in xs :: !Lapse(x, expiresAt)
  }

  /** A deposit is credited exactly when the wallet is in USD and it is confirmed before any expiry
      run reaches its deadline: never later, and never for a wallet in another currency. */
  lemma {:induction false} CreditedIffConfirmedInTime(xs: seq<Action>, i: nat, expiresAt: int, usdWallet: bool)
    ensures Fate(xs, i, expiresAt, usdWallet) == DConfirmed <==> usdWallet && ConfirmedInTime(xs, i, expiresAt)
    ensures Fate(xs, i, expiresAt, usdWallet) == DAwaiting ==> NoLapse(xs, expiresAt)
    ensures Fate(xs, i, expiresAt, usdWallet) == DExpired ==> !NoLapse(xs, expiresAt)
    ensures Fate(xs, i, expiresAt, usdWallet) in {DAwaiting, DConfirmed, DExpired}
  {
    if xs != [] {
      var n := |xs| - 1;
      var init := xs[..n];
      CreditedIffConfirmedInTime(init, i, expiresAt, usdWallet);
      assert xs == init + [xs[n]];
      if ConfirmedInTime(init, i, expiresAt) {
        var k :| 0 <= k < n && init[k] == DoConfirm(i) && NoLapse(init[..k], expiresAt);
        assert xs[..k] == init[..k] && xs[k] == DoConfirm(i);
      }
      if ConfirmedInTime(xs, i, expiresAt) {
        var k :| 0 <= k <= n && xs[k] == DoConfirm(i) && NoLapse(xs[..k], expiresAt);
        assert k < n ==> init[..k] == xs[..k] && init[k] == DoConfirm(i);
      }
      if xs[n] == DoConfirm(i) && Fate(init, i, expiresAt, usdWallet) == DAwaiting {
        assert xs[..n] == init;
      }
    }
  }
}
