/** What becomes of a withdrawal and of a reward on any run, told from the calls that name it. */
module Fates {
  import opened Outcomes
  import opened MoneyTables
  import opened ServiceContracts

  lemma LastCall(xs: seq<Action>)
    requires xs != []
    ensures forall x :: x in xs <==> x in xs[..|xs| - 1] || x == xs[|xs| - 1]
  {
    assert xs == xs[..|xs| - 1] + [xs[|xs| - 1]];
  }

  // ---------------------------------------------------------------- withdrawals

  predicate Approval(x: Action, i: nat) {
    x.DoApproveWithdrawal? && x.withdrawal == i
  }

  /** One approval, or two by different people where two are needed. */
  ghost predicate Granted(xs: seq<Action>, i: nat, dual: bool) {
    if dual then
      exists j, k :: 0 <= j < k < |xs| && TwoPeople(xs[j], xs[k], i)
    else exists k :: 0 <= k < |xs| && Approval(xs[k], i)
  }

  predicate TwoPeople(x: Action, y: Action, i: nat) {
    Approval(x, i) && Approval(y, i) && x.approver.Some? && y.approver.Some? && x.approver != y.approver
  }

  /** A payment after the approvals and before any rejection. */
  ghost predicate PaidOut(xs: seq<Action>, i: nat, dual: bool) {
    exists k :: 0 <= k < |xs| && xs[k] == DoPay(i) && Granted(xs[..k], i, dual) && DoRejectWithdrawal(i) !in xs[..k]
  }

  ghost predicate Looked(xs: seq<Action>, i: nat) {
    exists k :: 0 <= k < |xs| && Approval(xs[k], i)
  }

  /** Status and approvers as the calls so far determine them. */
  ghost predicate FateOf(xs: seq<Action>, i: nat, w: Withdrawal) {
    && (w.status == WPaid <==> PaidOut(xs, i, w.terms.dual))
    && (w.status == WRejected <==> DoRejectWithdrawal(i) in xs && !PaidOut(xs, i, w.terms.dual))
    && (w.status == WProcessing <==>
          DoRejectWithdrawal(i) !in xs && Granted(xs, i, w.terms.dual) && !PaidOut(xs, i, w.terms.dual))
    && (w.status == WUnderReview <==>
          DoRejectWithdrawal(i) !in xs && w.terms.dual && Looked(xs, i) && !Granted(xs, i, true))
    && (w.status == WRequested <==> DoRejectWithdrawal(i) !in xs && !Looked(xs, i))
  }

  /** While a withdrawal is open, whoever approved it is its first approver. */
  ghost predicate FirstApprover(xs: seq<Action>, i: nat, w: Withdrawal) {
    w.status in {WRequested, WUnderReview} ==>
      && w.secondApprover.None?
      && (w.approvedBy.Some? <==> exists k :: 0 <= k < |xs| && Approval(xs[k], i) && xs[k].approver.Some?)
      && forall k | 0 <= k < |xs| && Approval(xs[k], i) && xs[k].approver.Some? :: xs[k].approver == w.approvedBy
  }

  lemma GrantedNext(xs: seq<Action>, x: Action, i: nat, dual: bool)
    ensures Looked(xs + [x], i) <==> Looked(xs, i) || Approval(x, i)
    ensures Granted(xs + [x], i, dual) <==>
              || Granted(xs, i, dual)
              || (if dual then exists j :: 0 <= j < |xs| && TwoPeople(xs[j], x, i) else Approval(x, i))
  {
    var ys := xs + [x];
    assert forall k | 0 <= k < |xs| :: ys[k] == xs[k];
    assert ys[|xs|] == x;
    if Granted(xs, i, dual) && dual {
      var j, k :| 0 <= j < k < |xs| && TwoPeople(xs[j], xs[k], i);
      assert TwoPeople(ys[j], ys[k], i);
    }
    if dual && exists j :: 0 <= j < |xs| && TwoPeople(xs[j], x, i) {
      var j :| 0 <= j < |xs| && TwoPeople(xs[j], x, i);
      assert TwoPeople(ys[j], ys[|xs|], i);
    }
  }

  lemma PaidOutNext(xs: seq<Action>, x: Action, i: nat, dual: bool)
    ensures PaidOut(xs + [x], i, dual) <==>
              PaidOut(xs, i, dual) || (x == DoPay(i) && Granted(xs, i, dual) && DoRejectWithdrawal(i) !in xs)
  {
    hide Granted;
    var ys := xs + [x];
    forall k | 0 <= k <= |xs| ensures ys[..k] == xs[..k] && (k < |xs| ==> ys[k] == xs[k]) {
    }
    assert xs[..|xs|] == xs && ys[|xs|] == x;
    if PaidOut(xs, i, dual) {
      var k :| 0 <= k < |xs| && xs[k] == DoPay(i) && Granted(xs[..k], i, dual) && DoRejectWithdrawal(i) !in xs[..k];
      assert ys[k] == DoPay(i) && Granted(ys[..k], i, dual) && DoRejectWithdrawal(i) !in ys[..k];
    }
    if x == DoPay(i) && Granted(xs, i, dual) && DoRejectWithdrawal(i) !in xs {
      assert ys[|xs|] == DoPay(i) && Granted(ys[..|xs|], i, dual) && DoRejectWithdrawal(i) !in ys[..|xs|];
    }
  }

  /** What one call does to one withdrawal. */
  lemma WithdrawalNext(t: Tables, x: Action, i: nat)
    requires i < |t.withdrawals|
    ensures i < |Step(t, x).withdrawals|
    ensures var w, v := t.withdrawals[i], Step(t, x).withdrawals[i];
            if Approval(x, i) && w.status in {WRequested, WUnderReview} then
              ApprovalOfWithdrawal(t, i, x.approver, x.second, Ok(()), t.(withdrawals := t.withdrawals[i := v]))
            else
              v == w.(status := if x == DoPay(i) && w.status in {WApproved, WProcessing} then WPaid
                                else if x == DoRejectWithdrawal(i) && w.status !in {WPaid, WRejected, WCancelled}
                                then WRejected else w.status)
  {
    if Approval(x, i) {
      ReviewIsPromised(t, i, x.approver, x.second, if t.withdrawals[i].status in {WRequested, WUnderReview} then Ok(())
                       else Err(WrongStatus), Step(t, x));
    }
  }

  lemma FirstApproverNext(xs: seq<Action>, x: Action, i: nat, w: Withdrawal)
    requires FirstApprover(xs, i, w) && w.status in {WRequested, WUnderReview}
    ensures (exists j :: 0 <= j < |xs| && TwoPeople(xs[j], x, i)) <==>
              Approval(x, i) && x.approver.Some? && w.approvedBy.Some? && w.approvedBy != x.approver
  {
    if Approval(x, i) && x.approver.Some? && w.approvedBy.Some? && w.approvedBy != x.approver {
      var j :| 0 <= j < |xs| && Approval(xs[j], i) && xs[j].approver.Some?;
      assert TwoPeople(xs[j], x, i);
    }
  }

  lemma FirstApproverKept(xs: seq<Action>, x: Action, i: nat, w: Withdrawal)
    requires FirstApprover(xs, i, w) && !(Approval(x, i) && x.approver.Some?)
    ensures FirstApprover(xs + [x], i, w)
  {
    var ys := xs + [x];
    assert forall k | 0 <= k < |xs| :: ys[k] == xs[k];
    if k :| 0 <= k < |xs| && Approval(xs[k], i) && xs[k].approver.Some? {
      assert Approval(ys[k], i);
    }
  }

  lemma FirstApproverSet(xs: seq<Action>, x: Action, i: nat, w: Withdrawal, v: Withdrawal)
    requires FirstApprover(xs, i, w) && w.status in {WRequested, WUnderReview}
    requires Approval(x, i) && x.approver.Some? && (w.approvedBy.None? || w.approvedBy == x.approver)
    requires v.approvedBy == x.approver && v.secondApprover == w.secondApprover
    ensures FirstApprover(xs + [x], i, v)
  {
    var ys := xs + [x];
    assert ys[|xs|] == x;
    assert forall k | 0 <= k < |xs| :: ys[k] == xs[k];
  }

  lemma ApprovalFate(t: Tables, x: Action, i: nat, xs: seq<Action>, v: Withdrawal)
    requires i < |t.withdrawals| && FateOf(xs, i, t.withdrawals[i]) && FirstApprover(xs, i, t.withdrawals[i])
    requires Approval(x, i) && t.withdrawals[i].status in {WRequested, WUnderReview}
    requires ApprovalOfWithdrawal(t, i, x.approver, x.second, Ok(()), t.(withdrawals := t.withdrawals[i := v]))
    ensures FateOf(xs + [x], i, v) && FirstApprover(xs + [x], i, v)
  {
    hide Granted, PaidOut, Looked, FirstApprover, TwoPeople;
    var w := t.withdrawals[i];
    GrantedNext(xs, x, i, w.terms.dual);
    PaidOutNext(xs, x, i, w.terms.dual);
    FirstApproverNext(xs, x, i, w);
    NoSecondYet(xs, i, w);
    if x.approver.None? {
      FirstApproverKept(xs, x, i, w);
      SameApprovers(xs + [x], i, w, v);
    } else if w.approvedBy.None? || w.approvedBy == x.approver {
      FirstApproverSet(xs, x, i, w, v);
    } else {
      NoLongerOpen(xs + [x], i, v);
    }
  }

  lemma NoSecondYet(xs: seq<Action>, i: nat, w: Withdrawal)
    requires FirstApprover(xs, i, w) && w.status in {WRequested, WUnderReview}
    ensures w.secondApprover.None?
  {
  }

  lemma SameApprovers(xs: seq<Action>, i: nat, w: Withdrawal, v: Withdrawal)
    requires FirstApprover(xs, i, w) && v.approvedBy == w.approvedBy && v.secondApprover == w.secondApprover
    requires w.status in {WRequested, WUnderReview}
    ensures FirstApprover(xs, i, v)
  {
  }

  lemma NoLongerOpen(xs: seq<Action>, i: nat, v: Withdrawal)
    requires v.status !in {WRequested, WUnderReview}
    ensures FirstApprover(xs, i, v)
  {
  }

  lemma OtherFate(x: Action, i: nat, xs: seq<Action>, w: Withdrawal, v: Withdrawal)
    requires FateOf(xs, i, w) && FirstApprover(xs, i, w) && !(Approval(x, i) && w.status in {WRequested, WUnderReview})
    requires v == w.(status := if x == DoPay(i) && w.status in {WApproved, WProcessing} then WPaid
                               else if x == DoRejectWithdrawal(i) && w.status !in {WPaid, WRejected, WCancelled}
                               then WRejected else w.status)
    ensures FateOf(xs + [x], i, v) && FirstApprover(xs + [x], i, v)
  {
    hide Granted, PaidOut, Looked, FirstApprover;
    GrantedNext(xs, x, i, w.terms.dual);
    PaidOutNext(xs, x, i, w.terms.dual);
    GrantedIsLooked(xs, i, w.terms.dual);
    if v.status in {WRequested, WUnderReview} {
      FirstApproverKept(xs, x, i, w);
    } else {
      NoLongerOpen(xs + [x], i, v);
    }
  }

  lemma GrantedIsLooked(xs: seq<Action>, i: nat, dual: bool)
    ensures Granted(xs, i, dual) ==> Looked(xs, i)
    ensures !dual && Looked(xs, i) ==> Granted(xs, i, dual)
  {
  }

  /** On any run, a withdrawal that was just requested ends as its own calls decide.  It is rejected
      exactly if it is rejected before it is paid, paid exactly by a payment after the approvals it
      needs and before any rejection, and otherwise on its way exactly if it has these approvals: one
      of any kind, or two by different people where two are needed. */
  lemma {:induction false} WithdrawalFate(t: Tables, xs: seq<Action>, i: nat)
    requires i < |t.withdrawals| && t.withdrawals[i].status == WRequested
    requires t.withdrawals[i].approvedBy.None? && t.withdrawals[i].secondApprover.None?
    ensures i < |Run(t, xs).withdrawals| && Run(t, xs).withdrawals[i].terms == t.withdrawals[i].terms
    ensures FateOf(xs, i, Run(t, xs).withdrawals[i]) && FirstApprover(xs, i, Run(t, xs).withdrawals[i])
  {
    hide Step, FateOf, FirstApprover, ApprovalOfWithdrawal;
    if xs == [] {
      NothingCalled(i, t.withdrawals[i]);
    } else {
      var n := |xs| - 1;
      var before, x := Run(t, xs[..n]), xs[n];
      WithdrawalFate(t, xs[..n], i);
      WithdrawalNext(before, x, i);
      var w, v := before.withdrawals[i], Step(before, x).withdrawals[i];
      if Approval(x, i) && w.status in {WRequested, WUnderReview} {
        ApprovalFate(before, x, i, xs[..n], v);
        TermsKept(before, x, i, v);
      } else {
        OtherFate(x, i, xs[..n], w, v);
      }
      assert xs[..n] + [x] == xs;
    }
  }

  /** Without a rejection, the approvals that a withdrawal needs put it on its way, whoever gives them. */
  lemma ApprovalsSuffice(t: Tables, xs: seq<Action>, i: nat, k: nat)
    requires i < |t.withdrawals| && t.withdrawals[i].status == WRequested
    requires t.withdrawals[i].approvedBy.None? && t.withdrawals[i].secondApprover.None?
    requires k < |xs| && Approval(xs[k], i) && DoRejectWithdrawal(i) !in xs
    requires t.withdrawals[i].terms.dual ==> exists j :: 0 <= j < k && TwoPeople(xs[j], xs[k], i)
    ensures i < |Run(t, xs).withdrawals| && Run(t, xs).withdrawals[i].status in {WProcessing, WPaid}
  {
    hide Run, PaidOut, Looked, FirstApprover;
    WithdrawalFate(t, xs, i);
  }

  lemma NothingCalled(i: nat, w: Withdrawal)
    requires w.status == WRequested && w.approvedBy.None? && w.secondApprover.None?
    ensures FateOf([], i, w) && FirstApprover([], i, w)
  {
  }

  lemma TermsKept(t: Tables, x: Action, i: nat, v: Withdrawal)
    requires i < |t.withdrawals| && Approval(x, i) && t.withdrawals[i].status in {WRequested, WUnderReview}
    requires ApprovalOfWithdrawal(t, i, x.approver, x.second, Ok(()), t.(withdrawals := t.withdrawals[i := v]))
    ensures v.terms == t.withdrawals[i].terms
  {
  }

  // ---------------------------------------------------------------- rewards

  /** The call approves a pending reward: by name, or as one that is due and not held. */
  predicate Approves(x: Action, i: nat, r: Reward, held: bool) {
    || x == DoApproveReward(i)
    || (&& x.DoApproveDue? && !held && r.createdAt <= x.cutoff
        && (r.rule.Some? ==> r.rule.value !in x.manualRules))
  }

  predicate Closed(xs: seq<Action>, i: nat) {
    DoReject(i) in xs || DoReverse(i) in xs
  }

  /** Some call approves the reward before any rejection or reversal. */
  ghost predicate Earned(xs: seq<Action>, i: nat, r: Reward) {
    exists k :: 0 <= k < |xs| && Approves(xs[k], i, r, r.held || DoHold(i) in xs[..k]) && !Closed(xs[..k], i)
  }

  ghost predicate RejectedFirst(xs: seq<Action>, i: nat) {
    exists k :: 0 <= k < |xs| && xs[k] == DoReject(i) && DoReverse(i) !in xs[..k]
  }

  /** What becomes of a reward that was pending, `r`. */
  ghost predicate RewardFateOf(xs: seq<Action>, i: nat, r: Reward, s: Reward) {
    && s == r.(status := s.status, held := s.held)
    && (s.status == RApproved <==> Earned(xs, i, r) && DoReverse(i) !in xs)
    && (s.status == RRejected <==> !Earned(xs, i, r) && RejectedFirst(xs, i))
    && (s.status == RReversed <==> DoReverse(i) in xs && (Earned(xs, i, r) || !RejectedFirst(xs, i)))
    && (s.status == RPending <==> !Earned(xs, i, r) && !Closed(xs, i))
    && (s.status == RPending ==> (s.held <==> r.held || DoHold(i) in xs))
  }

  lemma EarnedNext(xs: seq<Action>, x: Action, i: nat, r: Reward)
    ensures Earned(xs + [x], i, r) <==>
              Earned(xs, i, r) || (Approves(x, i, r, r.held || DoHold(i) in xs) && !Closed(xs, i))
    ensures RejectedFirst(xs + [x], i) <==> RejectedFirst(xs, i) || (x == DoReject(i) && DoReverse(i) !in xs)
  {
    hide Approves, Closed;
    var ys := xs + [x];
    forall k | 0 <= k <= |xs| ensures ys[..k] == xs[..k] && (k < |xs| ==> ys[k] == xs[k]) {
    }
    assert xs[..|xs|] == xs && ys[|xs|] == x;
    if Earned(xs, i, r) {
      var k :| 0 <= k < |xs| && Approves(xs[k], i, r, r.held || DoHold(i) in xs[..k]) && !Closed(xs[..k], i);
      assert Approves(ys[k], i, r, r.held || DoHold(i) in ys[..k]) && !Closed(ys[..k], i);
    }
    if Approves(x, i, r, r.held || DoHold(i) in xs) && !Closed(xs, i) {
      assert Approves(ys[|xs|], i, r, r.held || DoHold(i) in ys[..|xs|]) && !Closed(ys[..|xs|], i);
    }
    if RejectedFirst(xs, i) {
      var k :| 0 <= k < |xs| && xs[k] == DoReject(i) && DoReverse(i) !in xs[..k];
      assert ys[k] == DoReject(i) && DoReverse(i) !in ys[..k];
    }
    if x == DoReject(i) && DoReverse(i) !in xs {
      assert ys[|xs|] == DoReject(i) && DoReverse(i) !in ys[..|xs|];
    }
  }

  /** What one call does to one reward. */
  lemma RewardNext(t: Tables, x: Action, i: nat)
    requires i < |t.rewards|
    ensures i < |Step(t, x).rewards|
    ensures var r, s := t.rewards[i], Step(t, x).rewards[i];
            && (r.status == RPending ==>
                  s == r.(status := if Approves(x, i, r, r.held) then RApproved
                                    else if x == DoReject(i) then RRejected
                                    else if x == DoReverse(i) then RReversed else RPending,
                          held := r.held || x == DoHold(i)))
            && (r.status == RApproved ==> s == r.(status := if x == DoReverse(i) then RReversed else RApproved))
            && (r.status in {RRejected, RReversed} ==> s == r)
  {
    if x.DoApproveDue? {
      assert Step(t, x).rewards[i] == ApprovedIfDue(t.rewards[i], x.cutoff, x.manualRules);
    } else if !(x.DoApproveReward? || x.DoHold? || x.DoReject? || x.DoReverse?) {
      OtherCallsKeepReward(t, x, i);
    }
  }

  lemma OtherCallsKeepReward(t: Tables, x: Action, i: nat)
    requires i < |t.rewards|
    requires !(x.DoApproveDue? || x.DoApproveReward? || x.DoHold? || x.DoReject? || x.DoReverse?)
    ensures i < |Step(t, x).rewards| && Step(t, x).rewards[i] == t.rewards[i]
  {
    hide Expected, ApproveReward, HoldReward, RejectReward, ReverseReward, ApproveDue;
  }

  lemma RejectedIsClosed(xs: seq<Action>, i: nat)
    ensures RejectedFirst(xs, i) ==> Closed(xs, i)
    ensures Closed(xs, i) && DoReverse(i) !in xs ==> RejectedFirst(xs, i)
  {
    if DoReject(i) in xs && DoReverse(i) !in xs {
      var k :| 0 <= k < |xs| && xs[k] == DoReject(i);
      assert DoReverse(i) !in xs[..k];
    }
  }

  lemma RewardFateNext(xs: seq<Action>, x: Action, i: nat, r: Reward, s: Reward, v: Reward)
    requires RewardFateOf(xs, i, r, s)
    requires s.status == RPending ==>
               v == s.(status := if Approves(x, i, s, s.held) then RApproved
                                 else if x == DoReject(i) then RRejected
                                 else if x == DoReverse(i) then RReversed else RPending,
                       held := s.held || x == DoHold(i))
    requires s.status == RApproved ==> v == s.(status := if x == DoReverse(i) then RReversed else RApproved)
    requires s.status in {RRejected, RReversed} ==> v == s
    ensures RewardFateOf(xs + [x], i, r, v)
  {
    hide Earned, RejectedFirst;
    EarnedNext(xs, x, i, r);
    RejectedIsClosed(xs, i);
    RejectedIsClosed(xs + [x], i);
  }

  /** On any run, a pending reward ends as the calls about it decide: approved exactly if some call
      approves it before any rejection or reversal and none reverses it, where the periodic run for pending
      rewards approves only those that are old enough, not held and not manual. */
  lemma {:induction false} RewardFate(t: Tables, xs: seq<Action>, i: nat)
    requires i < |t.rewards| && t.rewards[i].status == RPending
    ensures i < |Run(t, xs).rewards| && RewardFateOf(xs, i, t.rewards[i], Run(t, xs).rewards[i])
  {
    hide Step, RewardFateOf;
    if xs == [] {
      NothingDone(i, t.rewards[i]);
    } else {
      var n := |xs| - 1;
      var before, x := Run(t, xs[..n]), xs[n];
      RewardFate(t, xs[..n], i);
      RewardNext(before, x, i);
      RewardFateNext(xs[..n], x, i, t.rewards[i], before.rewards[i], Step(before, x).rewards[i]);
      assert xs[..n] + [x] == xs;
    }
  }

  lemma NothingDone(i: nat, r: Reward)
    requires r.status == RPending
    ensures RewardFateOf([], i, r, r)
  {
  }

  /** A reward that was approved at once stays so until it is reversed. */
  lemma {:induction false} ApprovedRewardFate(t: Tables, xs: seq<Action>, i: nat)
    requires i < |t.rewards| && t.rewards[i].status == RApproved
    ensures i < |Run(t, xs).rewards|
    ensures Run(t, xs).rewards[i] == t.rewards[i].(status := if DoReverse(i) in xs then RReversed else RApproved)
  {
    hide Step;
    if xs != [] {
      var n := |xs| - 1;
      ApprovedRewardFate(t, xs[..n], i);
      RewardNext(Run(t, xs[..n]), xs[n], i);
      LastCall(xs);
    }
  }
}
