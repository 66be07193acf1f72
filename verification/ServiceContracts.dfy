/** What callers of the money services are promised, told from the arguments, the rows and the balances
    before and after a call.  Times are in microseconds. */
module ServiceContracts {
  import opened Outcomes
  import opened Decimals
  import opened Accounts
  import opened Ledger
  import opened RewardMath
  import opened WithdrawalPolicy
  import opened MoneyTables
  import opened Refinement

  /** Balances changed by these movements and by nothing else. */
  ghost predicate OnlyMoved(b: Book, c: Book, source: Account, target: Account, amount: int) {
    forall a :: Bal(c.balances, a) == Bal(b.balances, a) + Move(source, target, amount, a)
  }

  ghost predicate OnlyMovedBoth(b: Book, c: Book, source: Account, target: Account, cash: int,
                                pointsSource: Account, pointsTarget: Account, points: int)
  {
    forall a :: Bal(c.balances, a) == Bal(b.balances, a) + Move(source, target, if cash > 0 then cash else 0, a)
                                      + Move(pointsSource, pointsTarget, if points > 0 then points else 0, a)
  }

  function OwnCurrency(t: Tables, user: nat): Currency {
    if user in t.wallets then t.wallets[user] else PKR
  }

  // ---------------------------------------------------------------- rewards

  /** There is a reward of this user for this source and reference. */
  predicate Claims(r: Reward, user: nat, source: Source, ref: Ref) {
    r.user == user && r.source == source && r.ref == ref
  }

  predicate Claimed(rewards: seq<Reward>, user: nat, source: Source, ref: Ref) {
    ref != NoRef && exists i | 0 <= i < |rewards| :: Claims(rewards[i], user, source, ref)
  }

  /** The new reward's cash and points are with the user, or on hold. */
  ghost predicate Credited(r: Reward, b: Book, c: Book) {
    if r.status == RApproved then
      OnlyMovedBoth(b, c, PlatformCash(r.currency), UserAccount(r.user, Cash, r.currency), r.cash,
                    PLATFORM_POINTS, UserAccount(r.user, Points, POINTS), r.points)
    else
      OnlyMovedBoth(b, c, PlatformCash(r.currency), UserAccount(r.user, Pending, r.currency), r.cash,
                    PLATFORM_POINTS, PLATFORM_PENDING_POINTS, r.points)
  }

  /** A claim is rewarded once, with the amounts asked for, unless there is nothing to pay. */
  ghost predicate IssueAnswers(t: Tables, b: Book, q: Issue, r: Result<(nat, bool), Failure>, u: Tables, c: Book) {
    if Claimed(t.rewards, q.user, q.source, q.ref) then
      && r.Ok? && !r.value.1 && r.value.0 < |t.rewards| && Claims(t.rewards[r.value.0], q.user, q.source, q.ref)
      && u == t && c == b
    else if q.cash <= 0 && q.points <= 0 then
      r == Err(ZeroReward) && u == t && c == b
    else
      && r == Ok((|t.rewards|, true))
      && u == t.(rewards := u.rewards) && |u.rewards| == |t.rewards| + 1 && u.rewards[..|t.rewards|] == t.rewards
      && var row := u.rewards[|t.rewards|];
         && row.user == q.user && row.source == q.source && row.ref == q.ref && row.rule == q.rule
         && row.cash == q.cash && row.points == q.points && row.share == q.share && row.currency == q.currency
         && row.createdAt == q.createdAt && !row.held
         && row.status == (if q.autoApprove then RApproved else RPending)
         && Credited(row, b, c)
  }

  lemma IssueIsAnswered(t: Tables, b: Book, q: Issue, r: Result<(nat, bool), Failure>, u: Tables, c: Book)
    requires Inv(b, t) && Inv(c, u)
    requires match IssueReward(t, q)
             case Ok(x) => r == Ok((x.reward, x.created)) && u == x.tables && (!x.created ==> c == b)
             case Err(e) => r == Err(e) && u == t && c == b
    ensures IssueAnswers(t, b, q, r, u, c)
  {
    hide Inv, Credited;
    FoundIffClaimed(t.rewards, q.user, q.source, q.ref);
    if FindClaim(t.rewards, q.user, q.source, q.ref) < 0 && (q.cash > 0 || q.points > 0) {
      assert u.rewards[..|t.rewards|] == t.rewards;
      NewRewardIsCredited(t, b, NewReward(q), c);
    }
  }

  lemma FoundIffClaimed(rewards: seq<Reward>, user: nat, source: Source, ref: Ref)
    ensures var i := FindClaim(rewards, user, source, ref);
            (i >= 0 <==> Claimed(rewards, user, source, ref)) && (i >= 0 ==> Claims(rewards[i], user, source, ref))
  {
    var i := FindClaim(rewards, user, source, ref);
    assert i < 0 ==> forall j | 0 <= j < |rewards| :: !SameClaim(rewards[j], user, source, ref);
  }

  lemma NewRewardIsCredited(t: Tables, b: Book, r: Reward, c: Book)
    requires Inv(b, t) && Inv(c, t.(rewards := t.rewards + [r])) && r.status in {RPending, RApproved}
    ensures Credited(r, b, c)
  {
    hide BookOk, KeysOk, Expected;
    ExpectedNewReward(t, r);
  }

  /** A change of status, and what it moves: only from the states it is meant for. */
  ghost predicate StatusChanged(t: Tables, u: Tables, i: nat, status: RewardStatus) {
    i < |t.rewards| && i < |u.rewards| && u == t.(rewards := t.rewards[i := u.rewards[i]])
    && u.rewards[i] == t.rewards[i].(status := status)
  }

  ghost predicate Unchanged(t: Tables, b: Book, u: Tables, c: Book) {
    u == t && c == b
  }

  /** Pending amounts are released to the user once. */
  ghost predicate ApprovalOfReward(t: Tables, b: Book, i: nat, r: Result<(), Failure>, u: Tables, c: Book) {
    if i < |t.rewards| && t.rewards[i].status == RPending then
      && r == Ok(()) && StatusChanged(t, u, i, RApproved)
      && var row := t.rewards[i];
         OnlyMovedBoth(b, c, UserAccount(row.user, Pending, row.currency), UserAccount(row.user, Cash, row.currency),
                       row.cash, PLATFORM_PENDING_POINTS, UserAccount(row.user, Points, POINTS), row.points)
    else
      && Unchanged(t, b, u, c)
      && r == (if i >= |t.rewards| then Err(MissingRow)
               else if t.rewards[i].status == RApproved then Ok(()) else Err(WrongStatus))
  }

  /** The amounts of a live reward go back to where they came from. */
  ghost predicate TakenBack(r: Reward, b: Book, c: Book) {
    if r.status == RApproved then
      OnlyMovedBoth(b, c, UserAccount(r.user, Cash, r.currency), PlatformCash(r.currency), r.cash,
                    UserAccount(r.user, Points, POINTS), PLATFORM_POINTS, r.points)
    else
      OnlyMovedBoth(b, c, UserAccount(r.user, Pending, r.currency), PlatformCash(r.currency), r.cash,
                    PLATFORM_PENDING_POINTS, PLATFORM_POINTS, r.points)
  }

  ghost predicate RejectionOfReward(t: Tables, b: Book, i: nat, r: Result<(), Failure>, u: Tables, c: Book) {
    if i < |t.rewards| && t.rewards[i].status == RPending then
      r == Ok(()) && StatusChanged(t, u, i, RRejected) && TakenBack(t.rewards[i], b, c)
    else
      Unchanged(t, b, u, c) && r == Err(if i >= |t.rewards| then MissingRow else WrongStatus)
  }

  ghost predicate ReversalOfReward(t: Tables, b: Book, i: nat, r: Result<(), Failure>, u: Tables, c: Book) {
    if i < |t.rewards| && t.rewards[i].status in {RPending, RApproved} then
      r == Ok(()) && StatusChanged(t, u, i, RReversed) && TakenBack(t.rewards[i], b, c)
    else
      && Unchanged(t, b, u, c)
      && r == (if i >= |t.rewards| then Err(MissingRow)
               else if t.rewards[i].status == RReversed then Ok(()) else Err(WrongStatus))
  }

  ghost predicate HoldOfReward(t: Tables, b: Book, i: nat, r: Result<(), Failure>, u: Tables, c: Book) {
    && c == b
    && if i < |t.rewards| && t.rewards[i].status == RPending then
         && r == Ok(()) && i < |u.rewards| && u == t.(rewards := t.rewards[i := u.rewards[i]])
         && u.rewards[i] == t.rewards[i].(held := true)
       else
         u == t && r == Err(if i >= |t.rewards| then MissingRow else WrongStatus)
  }

  /** A call did to the tables what its specification says, or raised and left everything alone. */
  ghost predicate Did(t: Tables, b: Book, outcome: Result<Tables, Failure>, r: Result<(), Failure>, u: Tables, c: Book)
  {
    match outcome
    case Ok(v) => r == Ok(()) && u == v
    case Err(e) => r == Err(e) && u == t && c == b
  }

  /** A change of status moves what the amounts were counted for to where they are counted now. */
  lemma StatusMoves(t: Tables, b: Book, i: nat, status: RewardStatus, c: Book)
    requires Inv(b, t) && i < |t.rewards| && Inv(c, WithReward(t, i, t.rewards[i].(status := status)))
    requires t.rewards[i].status in {RPending, RApproved}
    ensures status in {RRejected, RReversed} ==> TakenBack(t.rewards[i], b, c)
    ensures var r := t.rewards[i];
            r.status == RPending && status == RApproved ==>
              OnlyMovedBoth(b, c, UserAccount(r.user, Pending, r.currency), UserAccount(r.user, Cash, r.currency),
                            r.cash, PLATFORM_PENDING_POINTS, UserAccount(r.user, Points, POINTS), r.points)
  {
    hide Inv;
    RewardBalances(t, b, i, t.rewards[i].(status := status), c);
  }

  lemma RewardBalances(t: Tables, b: Book, i: nat, s: Reward, c: Book)
    requires Inv(b, t) && i < |t.rewards| && Inv(c, WithReward(t, i, s))
    ensures forall a :: Bal(c.balances, a) == Bal(b.balances, a) - RewardFoot(t.rewards[i], a) + RewardFoot(s, a)
  {
    hide BookOk, KeysOk, Expected, RewardFoot;
    ExpectedWithReward(t, i, s);
  }

  lemma ApprovalIsPromised(t: Tables, b: Book, i: nat, r: Result<(), Failure>, u: Tables, c: Book)
    requires Inv(b, t) && Inv(c, u) && Did(t, b, ApproveReward(t, i), r, u, c) && (u == t ==> c == b)
    ensures ApprovalOfReward(t, b, i, r, u, c)
  {
    hide Inv, OnlyMovedBoth, TakenBack;
    if i < |t.rewards| && t.rewards[i].status == RPending {
      StatusMoves(t, b, i, RApproved, c);
    }
  }

  lemma RejectionIsPromised(t: Tables, b: Book, i: nat, r: Result<(), Failure>, u: Tables, c: Book)
    requires Inv(b, t) && Inv(c, u) && Did(t, b, RejectReward(t, i), r, u, c)
    ensures RejectionOfReward(t, b, i, r, u, c)
  {
    hide Inv, OnlyMovedBoth, TakenBack;
    if i < |t.rewards| && t.rewards[i].status == RPending {
      StatusMoves(t, b, i, RRejected, c);
    }
  }

  lemma ReversalIsPromised(t: Tables, b: Book, i: nat, r: Result<(), Failure>, u: Tables, c: Book)
    requires Inv(b, t) && Inv(c, u) && Did(t, b, ReverseReward(t, i), r, u, c)
    requires i < |t.rewards| && t.rewards[i].status == RReversed ==> c == b
    ensures ReversalOfReward(t, b, i, r, u, c)
  {
    hide Inv, OnlyMovedBoth, TakenBack;
    if i < |t.rewards| && t.rewards[i].status in {RPending, RApproved} {
      StatusMoves(t, b, i, RReversed, c);
    }
  }

  // ---------------------------------------------------------------- pending rewards

  /** Which rewards the periodic run approves: pending ones of that age that are not held and whose rule does
      not ask for a manual approval. */
  predicate Approvable(r: Reward, cutoff: int, manualRules: set<nat>) {
    && r.status == RPending && !r.held && r.createdAt <= cutoff
    && (r.rule.Some? ==> r.rule.value !in manualRules)
  }

  ghost predicate DueApproved(t: Tables, cutoff: int, manualRules: set<nat>, approved: nat, u: Tables) {
    && u == t.(rewards := u.rewards) && |u.rewards| == |t.rewards|
    && (forall i | 0 <= i < |t.rewards| ::
          u.rewards[i] == if Approvable(t.rewards[i], cutoff, manualRules) then t.rewards[i].(status := RApproved)
                          else t.rewards[i])
    && approved == |set i | 0 <= i < |t.rewards| && Approvable(t.rewards[i], cutoff, manualRules)|
  }

  // ---------------------------------------------------------------- withdrawals

  /** The user has asked for a withdrawal within the cooldown, and it was not rejected. */
  predicate AskedRecently(t: Tables, q: Request) {
    exists i | 0 <= i < |t.withdrawals| ::
      && t.withdrawals[i].user == q.user && t.withdrawals[i].status != WRejected
      && q.now - t.withdrawals[i].requestedAt <= q.settings.cooldownHours * 3600000000
  }

  /** What a request needs, with the given money available. */
  predicate MayWithdraw(t: Tables, q: Request, currency: Currency, available: int) {
    var s := q.settings;
    var kyc := LimitIn(s.kycThreshold, currency, s.rate);
    && s.enabled && !q.restricted
    && AtLeast(q.amount, LimitIn(s.minimum, currency, s.rate))
    && AtMost(q.amount, LimitIn(s.maximum, currency, s.rate))
    && kyc.Ok? && (kyc.value > 0.0 && q.amount as real >= kyc.value ==> q.kycApproved)
    && (s.cooldownHours != 0 ==> !AskedRecently(t, q))
    && (s.requireVerifiedMethod ==> q.methodVerified)
    && q.amount <= available
    && LimitIn(s.autoPayoutMaximum, currency, s.rate).Ok? && LimitIn(s.dualApprovalThreshold, currency, s.rate).Ok?
  }

  /** A request is accepted exactly if it passes every check against the user's cash; then exactly its
      amount is locked, and no other balance changes.  A frozen account has nothing available. */
  ghost predicate RequestAnswers(t: Tables, b: Book, q: Request, r: Result<nat, Failure>, u: Tables, c: Book) {
    var currency := if q.currency.Some? then q.currency.value else OwnCurrency(t, q.user);
    var cash, locked := UserAccount(q.user, Cash, currency), UserAccount(q.user, Locked, currency);
    var available := if q.frozen then 0 else Bal(b.balances, cash);
    if MayWithdraw(t, q, currency, available) then
      && r == Ok(|t.withdrawals|)
      && u == t.(withdrawals := u.withdrawals) && |u.withdrawals| == |t.withdrawals| + 1
      && u.withdrawals[..|t.withdrawals|] == t.withdrawals
      && var w := u.withdrawals[|t.withdrawals|];
         && w.user == q.user && w.amount == q.amount && w.currency == currency && w.requestedAt == q.now
         && w.status == WRequested && w.approvedBy.None? && w.secondApprover.None?
         && TermsFit(q.amount, currency, q.settings, w.terms)
         && OnlyMoved(b, c, cash, locked, q.amount)
    else
      && r.Err? && r.error.Declined? && Unchanged(t, b, u, c)
      && Deserved(r.error.refusal, q.amount, currency, q.settings,
                  Circumstances(q.restricted, q.kycApproved, AskedRecently(t, q), q.methodVerified, available))
  }

  lemma RecentIsAsked(t: Tables, q: Request)
    ensures RecentWithdrawal(t, q) <==> AskedRecently(t, q)
  {
  }

  lemma RequestIsAnswered(t: Tables, b: Book, q: Request, r: Result<nat, Failure>, u: Tables, c: Book)
    requires Inv(b, t) && Inv(c, u)
    requires match RequestWithdrawal(t, q, Bal(b.balances, UserAccount(q.user, Cash, RequestCurrency(t, q))))
             case Ok(v) => r == Ok(|t.withdrawals|) && u == v
             case Err(e) => r == Err(e) && u == t && c == b
    ensures RequestAnswers(t, b, q, r, u, c)
  {
    hide BookOk, KeysOk, Expected, Decide, LimitIn, TermsFit, Deserved, RecentWithdrawal, AskedRecently;
    var currency := RequestCurrency(t, q);
    var circumstances := CircumstancesOf(t, q, Bal(b.balances, UserAccount(q.user, Cash, currency)));
    RecentIsAsked(t, q);
    AcceptedIff(q.amount, currency, q.settings, circumstances);
    DecisionIsRight(q.amount, currency, q.settings, circumstances);
    if r.Ok? {
      ExpectedNewWithdrawal(t, u.withdrawals[|t.withdrawals|]);
    }
  }

  /** One approval of a withdrawal.  Without dual approval it is enough, whoever gives it; else a second
      approver is recorded only beside a different first one, and both are needed. */
  ghost predicate ApprovalOfWithdrawal(t: Tables, i: nat, approver: Option<nat>, second: Option<nat>,
                                       r: Result<(), Failure>, u: Tables)
  {
    if i < |t.withdrawals| && t.withdrawals[i].status in {WRequested, WUnderReview} then
      && r == Ok(()) && i < |u.withdrawals| && u == t.(withdrawals := t.withdrawals[i := u.withdrawals[i]])
      && var w, v := t.withdrawals[i], u.withdrawals[i];
         && v == w.(status := v.status, approvedBy := v.approvedBy, secondApprover := v.secondApprover)
         && (approver.None? ==> v.approvedBy == w.approvedBy && v.secondApprover == w.secondApprover)
         && (!w.terms.dual ==>
               v.status == WProcessing && v.secondApprover == w.secondApprover
               && (approver.Some? ==> v.approvedBy == approver))
         && (w.terms.dual ==>
               v.status == (if v.approvedBy.Some? && v.secondApprover.Some? then WProcessing else WUnderReview))
         && (w.terms.dual && approver.Some? && (w.approvedBy.None? || w.approvedBy == approver) ==>
               v.approvedBy == approver && v.secondApprover == w.secondApprover)
         && (w.terms.dual && approver.Some? && w.approvedBy.Some? && w.approvedBy != approver ==>
               v.approvedBy == w.approvedBy && v.secondApprover == (if second.Some? then second else approver))
    else
      u == t && r == Err(if i >= |t.withdrawals| then MissingRow else WrongStatus)
  }

  lemma ReviewIsPromised(t: Tables, i: nat, approver: Option<nat>, second: Option<nat>, r: Result<(), Failure>,
                         u: Tables)
    requires match ApproveWithdrawal(t, i, approver, second)
             case Ok(v) => r == Ok(()) && u == v
             case Err(e) => r == Err(e) && u == t
    ensures ApprovalOfWithdrawal(t, i, approver, second, r, u)
  {
  }

  ghost predicate WithdrawalSettled(t: Tables, u: Tables, i: nat, status: WithdrawalStatus) {
    i < |t.withdrawals| && i < |u.withdrawals| && u == t.(withdrawals := t.withdrawals[i := u.withdrawals[i]])
    && u.withdrawals[i] == t.withdrawals[i].(status := status)
  }

  ghost predicate PaymentOfWithdrawal(t: Tables, b: Book, i: nat, r: Result<(), Failure>, u: Tables, c: Book) {
    if i < |t.withdrawals| && t.withdrawals[i].status in {WApproved, WProcessing} then
      && r == Ok(()) && WithdrawalSettled(t, u, i, WPaid)
      && var w := t.withdrawals[i];
         OnlyMoved(b, c, UserAccount(w.user, Locked, w.currency), PlatformCash(w.currency), w.amount)
    else
      Unchanged(t, b, u, c) && r == Err(if i >= |t.withdrawals| then MissingRow else WrongStatus)
  }

  ghost predicate RejectionOfWithdrawal(t: Tables, b: Book, i: nat, r: Result<(), Failure>, u: Tables, c: Book) {
    if i < |t.withdrawals| && t.withdrawals[i].status !in {WPaid, WRejected, WCancelled} then
      && r == Ok(()) && WithdrawalSettled(t, u, i, WRejected)
      && var w := t.withdrawals[i];
         OnlyMoved(b, c, UserAccount(w.user, Locked, w.currency), UserAccount(w.user, Cash, w.currency), w.amount)
    else
      Unchanged(t, b, u, c) && r == Err(if i >= |t.withdrawals| then MissingRow else WrongStatus)
  }

  lemma WithdrawalBalances(t: Tables, b: Book, i: nat, v: Withdrawal, c: Book)
    requires Inv(b, t) && i < |t.withdrawals| && Inv(c, WithWithdrawal(t, i, v))
    ensures forall a ::
              Bal(c.balances, a) == Bal(b.balances, a) - WithdrawalFoot(t.withdrawals[i], a) + WithdrawalFoot(v, a)
  {
    hide BookOk, KeysOk, Expected, WithdrawalFoot;
    ExpectedWithWithdrawal(t, i, v);
  }

  lemma PaymentIsPromised(t: Tables, b: Book, i: nat, r: Result<(), Failure>, u: Tables, c: Book)
    requires Inv(b, t) && Inv(c, u) && Did(t, b, MarkPaid(t, i), r, u, c)
    ensures PaymentOfWithdrawal(t, b, i, r, u, c)
  {
    hide Inv;
    if r.Ok? {
      WithdrawalBalances(t, b, i, t.withdrawals[i].(status := WPaid), c);
    }
  }

  lemma WithdrawalRejectionIsPromised(t: Tables, b: Book, i: nat, r: Result<(), Failure>, u: Tables, c: Book)
    requires Inv(b, t) && Inv(c, u) && Did(t, b, RejectWithdrawal(t, i), r, u, c)
    ensures RejectionOfWithdrawal(t, b, i, r, u, c)
  {
    hide Inv;
    if r.Ok? {
      WithdrawalBalances(t, b, i, t.withdrawals[i].(status := WRejected), c);
    }
  }

  // ---------------------------------------------------------------- deposits and adjustments

  /** A positive deposit awaits its payment for an hour, in the currency asked for or the wallet's. */
  ghost predicate DepositCreated(t: Tables, user: nat, amount: int, currency: Option<Currency>, enabled: bool, now: int,
                                 r: Result<(), Failure>, u: Tables)
  {
    if amount > 0 && enabled then
      && r == Ok(())
      && u == t.(deposits := u.deposits) && |u.deposits| == |t.deposits| + 1
      && u.deposits[..|t.deposits|] == t.deposits
      && var d := u.deposits[|t.deposits|];
         && d.user == user && d.amount == amount && d.status == DAwaiting && d.expiresAt == now + 3600000000
         && d.currency == (if currency.Some? then currency.value else OwnCurrency(t, user))
    else
      u == t && r == Err(if amount <= 0 then NotPositive else DepositsDisabled)
  }

  /** A deposit that is still open is credited once, to a wallet in USD. */
  ghost predicate DepositConfirmed(t: Tables, b: Book, i: nat, r: Result<(), Failure>, u: Tables, c: Book) {
    if i >= |t.deposits| then r == Err(MissingRow) && Unchanged(t, b, u, c)
    else
      var d := t.deposits[i];
      if d.status in {DFailed, DExpired, DRefunded} then r == Err(WrongStatus) && Unchanged(t, b, u, c)
      else if d.status == DConfirmed then r == Ok(()) && Unchanged(t, b, u, c)
      else if d.amount != 0 && OwnCurrency(t, d.user) != USD then
        r == Err(LedgerRefused(CurrencyUnbalanced)) && Unchanged(t, b, u, c)
      else
        && r == Ok(()) && i < |u.deposits| && u == t.(deposits := t.deposits[i := u.deposits[i]])
        && u.deposits[i] == d.(status := DConfirmed)
        && OnlyMoved(b, c, PlatformCash(USD), UserAccount(d.user, Cash, USD), d.amount)
  }

  lemma ConfirmationIsPromised(t: Tables, b: Book, i: nat, r: Result<(), Failure>, u: Tables, c: Book)
    requires Inv(b, t) && Inv(c, u) && Did(t, b, ConfirmDeposit(t, i), r, u, c) && (u == t ==> c == b)
    ensures DepositConfirmed(t, b, i, r, u, c)
  {
    hide Inv, OnlyMoved;
    if i < |t.deposits| && r.Ok? && t.deposits[i].status != DConfirmed {
      DepositMoves(t, b, i, c);
    }
  }

  lemma DepositMoves(t: Tables, b: Book, i: nat, c: Book)
    requires Inv(b, t) && i < |t.deposits| && t.deposits[i].status != DConfirmed
    requires Inv(c, WithDeposit(t, i, t.deposits[i].(status := DConfirmed)))
    ensures OnlyMoved(b, c, PlatformCash(USD), UserAccount(t.deposits[i].user, Cash, USD), t.deposits[i].amount)
  {
    hide BookOk, KeysOk, Expected;
    ExpectedWithDeposit(t, i, t.deposits[i].(status := DConfirmed));
  }

  ghost predicate DepositsExpired(t: Tables, now: int, u: Tables) {
    && u == t.(deposits := u.deposits) && |u.deposits| == |t.deposits|
    && forall i | 0 <= i < |t.deposits| ::
         var d := t.deposits[i];
         u.deposits[i] == if d.status in {DCreated, DAwaiting} && now >= d.expiresAt then d.(status := DExpired) else d
  }

  /** A positive adjustment goes to the user's cash and a negative one is taken from it. */
  ghost predicate Adjusted(t: Tables, b: Book, user: nat, amount: int, currency: Currency,
                           r: Result<(), Failure>, u: Tables, c: Book)
  {
    if amount == 0 then r == Err(ZeroAdjustment) && Unchanged(t, b, u, c)
    else
      && r == Ok(()) && u == t.(adjustments := t.adjustments + [AdjustmentRow(user, amount, currency)])
      && OnlyMoved(b, c, PlatformCash(currency), UserAccount(user, Cash, currency), amount)
  }

  lemma AdjustmentIsPromised(t: Tables, b: Book, user: nat, amount: int, currency: Currency,
                             r: Result<(), Failure>, u: Tables, c: Book)
    requires Inv(b, t) && Inv(c, u) && Did(t, b, Adjust(t, user, amount, currency), r, u, c)
    ensures Adjusted(t, b, user, amount, currency, r, u, c)
  {
    hide BookOk, KeysOk, Expected;
    ExpectedNewAdjustment(t, AdjustmentRow(user, amount, currency));
  }
}
