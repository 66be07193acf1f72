/** The money tables as a state machine of their own: rewards, withdrawals, deposits and
    adjustments, without any ledger (apps/rewards, apps/withdrawals, apps/deposits, apps/wallets).

    Each row says what it contributes to every account; `Expected` adds the contributions up.
    Rows are never deleted, and a row's position stands for its primary key. */
module MoneyTables {
  import opened Calendar
  import opened Outcomes
  import opened Decimals
  import opened Accounts
  import opened Ledger
  import opened RewardMath
  import opened WithdrawalPolicy
  import opened Sums

  // ---------------------------------------------------------------- rows

  datatype RewardStatus = RPending | RApproved | RRejected | RReversed

  /** `source_reference`: the row, or other text, that a reward was earned for. */
  datatype Ref = NoRef | SessionRef(session: nat) | ConversionRef(conversion: nat) | TextRef(text: string)

  datatype Reward = Reward(
    user: nat,
    source: Source,
    ref: Ref,
    rule: Option<nat>,
    share: Option<real>,
    cash: int,
    points: int,
    currency: Currency,
    createdAt: int,
    status: RewardStatus,
    held: bool)

  datatype WithdrawalStatus =
    WRequested | WUnderReview | WApproved | WProcessing | WPaid | WFailed | WRejected | WCancelled

  datatype Withdrawal = Withdrawal(
    user: nat,
    amount: int,
    currency: Currency,
    terms: Terms,
    requestedAt: int,
    status: WithdrawalStatus,
    approvedBy: Option<nat>,
    secondApprover: Option<nat>)

  datatype DepositStatus =
    DCreated | DAwaiting | DDetected | DConfirming | DConfirmed | DFailed | DExpired | DRefunded

  datatype Deposit = Deposit(user: nat, amount: int, currency: Currency, expiresAt: int, status: DepositStatus)

  datatype AdjustmentRow = AdjustmentRow(user: nat, amount: int, currency: Currency)

  /** `wallets` holds the currencies of wallets that do not use the default. */
  datatype Tables = Tables(
    rewards: seq<Reward>,
    withdrawals: seq<Withdrawal>,
    deposits: seq<Deposit>,
    adjustments: seq<AdjustmentRow>,
    wallets: map<nat, Currency>)

  function WalletCurrency(t: Tables, user: nat): Currency {
    if user in t.wallets then t.wallets[user] else PKR
  }

  datatype Failure =
    | MissingRow | WrongStatus | ZeroReward | ZeroAdjustment | NotPositive | DepositsDisabled
    | Declined(refusal: Refusal) | LedgerRefused(error: LedgerError) | Unconvertible(why: ConvertError)

  // ---------------------------------------------------------------- footprints

  function Positive(x: int): nat {
    if x > 0 then x else 0
  }

  predicate LiveReward(r: Reward) {
    r.status == RPending || r.status == RApproved
  }

  predicate OpenWithdrawal(w: Withdrawal) {
    w.status != WPaid && w.status != WRejected
  }

  function UserAccount(user: nat, kind: Kind, c: Currency): Account {
    Account(User(user), kind, c)
  }

  function PlatformCash(c: Currency): Account {
    Account(System, Cash, c)
  }

  /** What a reward contributes to account `a`: pending, then cash and points, then nothing. */
  function RewardFoot(r: Reward, a: Account): int {
    match r.status
    case RPending =>
      Move(PlatformCash(r.currency), UserAccount(r.user, Pending, r.currency), Positive(r.cash), a)
      + Move(PLATFORM_POINTS, PLATFORM_PENDING_POINTS, Positive(r.points), a)
    case RApproved =>
      Move(PlatformCash(r.currency), UserAccount(r.user, Cash, r.currency), Positive(r.cash), a)
      + Move(PLATFORM_POINTS, UserAccount(r.user, Points, POINTS), Positive(r.points), a)
    case RRejected => 0
    case RReversed => 0
  }

  function WithdrawalFoot(w: Withdrawal, a: Account): int {
    var cash := UserAccount(w.user, Cash, w.currency);
    match w.status
    case WPaid => Move(cash, PlatformCash(w.currency), w.amount, a)
    case WRejected => 0
    case _ => Move(cash, UserAccount(w.user, Locked, w.currency), w.amount, a)
  }

  function DepositFoot(d: Deposit, a: Account): int {
    if d.status == DConfirmed then Move(PlatformCash(USD), UserAccount(d.user, Cash, USD), d.amount, a) else 0
  }

  function AdjustmentFoot(x: AdjustmentRow, a: Account): int {
    Move(PlatformCash(x.currency), UserAccount(x.user, Cash, x.currency), x.amount, a)
  }

  function RewardFeet(a: Account): Reward -> int {
    (r: Reward) => RewardFoot(r, a)
  }

  function WithdrawalFeet(a: Account): Withdrawal -> int {
    (w: Withdrawal) => WithdrawalFoot(w, a)
  }

  function DepositFeet(a: Account): Deposit -> int {
    (d: Deposit) => DepositFoot(d, a)
  }

  function AdjustmentFeet(a: Account): AdjustmentRow -> int {
    (x: AdjustmentRow) => AdjustmentFoot(x, a)
  }

  /** The balance that the tables call for. */
  ghost function Expected(t: Tables, a: Account): int {
    Sum(t.rewards, RewardFeet(a)) + Sum(t.withdrawals, WithdrawalFeet(a))
    + Sum(t.deposits, DepositFeet(a)) + Sum(t.adjustments, AdjustmentFeet(a))
  }

  // ---------------------------------------------------------------- rewards

  datatype Issue = Issue(
    user: nat,
    source: Source,
    ref: Ref,
    rule: Option<nat>,
    share: Option<real>,
    cash: int,
    points: int,
    currency: Currency,
    createdAt: int,
    autoApprove: bool)

  datatype Issued = Issued(tables: Tables, reward: nat, created: bool)

  /** A reward for the same source, reference and user: the unique constraint of the table. */
  predicate SameClaim(r: Reward, user: nat, source: Source, ref: Ref) {
    ref != NoRef && r.user == user && r.source == source && r.ref == ref
  }

  function FindClaim(rewards: seq<Reward>, user: nat, source: Source, ref: Ref): (i: int)
    ensures -1 <= i < |rewards|
    ensures i >= 0 ==> SameClaim(rewards[i], user, source, ref)
    ensures i < 0 ==> forall j | 0 <= j < |rewards| :: !SameClaim(rewards[j], user, source, ref)
  {
    if rewards == [] then -1
    else
      var i := FindClaim(rewards[..|rewards| - 1], user, source, ref);
      if i >= 0 then i
      else if SameClaim(rewards[|rewards| - 1], user, source, ref) then |rewards| - 1
      else -1
  }

  function NewReward(q: Issue): Reward {
    Reward(q.user, q.source, q.ref, q.rule, q.share, q.cash, q.points, q.currency, q.createdAt,
           if q.autoApprove then RApproved else RPending, false)
  }

  /** `_issue` */
  function IssueReward(t: Tables, q: Issue): Result<Issued, Failure> {
    var i := FindClaim(t.rewards, q.user, q.source, q.ref);
    if i >= 0 then Ok(Issued(t, i, false))
    else if q.cash <= 0 && q.points <= 0 then Err(ZeroReward)
    else Ok(Issued(t.(rewards := t.rewards + [NewReward(q)]), |t.rewards|, true))
  }

  function WithReward(t: Tables, i: nat, r: Reward): Tables
    requires i < |t.rewards|
  {
    t.(rewards := t.rewards[i := r])
  }

  /** `RewardService.approve` */
  function ApproveReward(t: Tables, i: nat): Result<Tables, Failure> {
    if i >= |t.rewards| then Err(MissingRow)
    else if t.rewards[i].status == RApproved then Ok(t)
    else if t.rewards[i].status != RPending then Err(WrongStatus)
    else Ok(WithReward(t, i, t.rewards[i].(status := RApproved)))
  }

  /** `RewardService.hold` */
  function HoldReward(t: Tables, i: nat): Result<Tables, Failure> {
    if i >= |t.rewards| then Err(MissingRow)
    else if t.rewards[i].status != RPending then Err(WrongStatus)
    else Ok(WithReward(t, i, t.rewards[i].(held := true)))
  }

  /** `RewardService.reject` */
  function RejectReward(t: Tables, i: nat): Result<Tables, Failure> {
    if i >= |t.rewards| then Err(MissingRow)
    else if t.rewards[i].status != RPending then Err(WrongStatus)
    else Ok(WithReward(t, i, t.rewards[i].(status := RRejected)))
  }

  /** `RewardService.reverse` */
  function ReverseReward(t: Tables, i: nat): Result<Tables, Failure> {
    if i >= |t.rewards| then Err(MissingRow)
    else if t.rewards[i].status == RReversed then Ok(t)
    else if !LiveReward(t.rewards[i]) then Err(WrongStatus)
    else Ok(WithReward(t, i, t.rewards[i].(status := RReversed)))
  }

  /** What `process_pending_rewards` picks: old enough, not manual by its rule, not held. */
  predicate Due(r: Reward, cutoff: int, manualRules: set<nat>) {
    && r.status == RPending && r.createdAt <= cutoff
    && !(r.rule.Some? && r.rule.value in manualRules)
    && !r.held
  }

  function ApprovedIfDue(r: Reward, cutoff: int, manualRules: set<nat>): Reward {
    if Due(r, cutoff, manualRules) then r.(status := RApproved) else r
  }

  /** `process_pending_rewards` */
  function ApproveDue(t: Tables, cutoff: int, manualRules: set<nat>): Tables {
    t.(rewards := seq(|t.rewards|, i requires 0 <= i < |t.rewards| => ApprovedIfDue(t.rewards[i], cutoff, manualRules)))
  }

  // ---------------------------------------------------------------- withdrawals

  datatype Request = Request(
    user: nat,
    amount: int,
    currency: Option<Currency>,
    settings: Settings,
    restricted: bool,
    kycApproved: bool,
    methodVerified: bool,
    frozen: bool,
    now: int)

  function RequestCurrency(t: Tables, q: Request): Currency {
    if q.currency.Some? then q.currency.value else WalletCurrency(t, q.user)
  }

  /** The cooldown looks for a withdrawal of the user that was not rejected. */
  predicate RecentWithdrawal(t: Tables, q: Request) {
    exists i | 0 <= i < |t.withdrawals| ::
      && t.withdrawals[i].user == q.user && t.withdrawals[i].status != WRejected
      && t.withdrawals[i].requestedAt >= q.now - q.settings.cooldownHours * MICROS_PER_HOUR
  }

  function CircumstancesOf(t: Tables, q: Request, cash: int): Circumstances {
    Circumstances(q.restricted, q.kycApproved, RecentWithdrawal(t, q), q.methodVerified,
                  if q.frozen then 0 else cash)
  }

  /** `request_withdrawal`, given the cash balance that its row lock protects. */
  function RequestWithdrawal(t: Tables, q: Request, cash: int): Result<Tables, Failure> {
    var c := RequestCurrency(t, q);
    match Decide(q.amount, c, q.settings, CircumstancesOf(t, q, cash))
    case Err(e) => Err(Declined(e))
    case Ok(terms) =>
      var w := Withdrawal(q.user, q.amount, c, terms, q.now, WRequested, None, None);
      Ok(t.(withdrawals := t.withdrawals + [w]))
  }

  function WithWithdrawal(t: Tables, i: nat, w: Withdrawal): Tables
    requires i < |t.withdrawals|
  {
    t.(withdrawals := t.withdrawals[i := w])
  }

  /** `approve_withdrawal` on one row. */
  function Approvers(w: Withdrawal, approver: Option<nat>, second: Option<nat>): Withdrawal {
    if approver.None? then w
    else if !w.terms.dual then w.(approvedBy := approver)
    else if w.approvedBy.Some? && w.approvedBy != approver then
      w.(secondApprover := if second.Some? then second else approver)
    else w.(approvedBy := approver)
  }

  function Reviewed(w: Withdrawal): Withdrawal {
    w.(status := if w.terms.dual && !(w.approvedBy.Some? && w.secondApprover.Some?) then WUnderReview else WProcessing)
  }

  function ApproveWithdrawal(t: Tables, i: nat, approver: Option<nat>, second: Option<nat>): Result<Tables, Failure> {
    if i >= |t.withdrawals| then Err(MissingRow)
    else if t.withdrawals[i].status != WRequested && t.withdrawals[i].status != WUnderReview then Err(WrongStatus)
    else Ok(WithWithdrawal(t, i, Reviewed(Approvers(t.withdrawals[i], approver, second))))
  }

  /** `mark_paid` */
  function MarkPaid(t: Tables, i: nat): Result<Tables, Failure> {
    if i >= |t.withdrawals| then Err(MissingRow)
    else if t.withdrawals[i].status != WApproved && t.withdrawals[i].status != WProcessing then Err(WrongStatus)
    else Ok(WithWithdrawal(t, i, t.withdrawals[i].(status := WPaid)))
  }

  /** `reject_withdrawal` */
  function RejectWithdrawal(t: Tables, i: nat): Result<Tables, Failure> {
    if i >= |t.withdrawals| then Err(MissingRow)
    else if t.withdrawals[i].status in {WPaid, WRejected, WCancelled} then Err(WrongStatus)
    else Ok(WithWithdrawal(t, i, t.withdrawals[i].(status := WRejected)))
  }

  // ---------------------------------------------------------------- deposits and adjustments

  const DEPOSIT_WINDOW := 60 * 60 * MICROS_PER_SECOND

  /** `create_deposit`, once the payment adapter has answered. */
  function CreateDeposit(t: Tables, user: nat, amount: int, currency: Option<Currency>, enabled: bool, now: int)
    : Result<Tables, Failure>
  {
    if amount <= 0 then Err(NotPositive)
    else if !enabled then Err(DepositsDisabled)
    else
      var c := if currency.Some? then currency.value else WalletCurrency(t, user);
      Ok(t.(deposits := t.deposits + [Deposit(user, amount, c, now + DEPOSIT_WINDOW, DAwaiting)]))
  }

  function WithDeposit(t: Tables, i: nat, d: Deposit): Tables
    requires i < |t.deposits|
  {
    t.(deposits := t.deposits[i := d])
  }

  /** `confirm_deposit`: it debits the platform in USD and credits the wallet's own currency. */
  function ConfirmDeposit(t: Tables, i: nat): Result<Tables, Failure> {
    if i >= |t.deposits| then Err(MissingRow)
    else
      var d := t.deposits[i];
      if d.status == DConfirmed then Ok(t)
      else if d.status in {DFailed, DExpired, DRefunded} then Err(WrongStatus)
      else if d.amount != 0 && WalletCurrency(t, d.user) != USD then Err(LedgerRefused(CurrencyUnbalanced))
      else Ok(WithDeposit(t, i, d.(status := DConfirmed)))
  }

  predicate Lapsed(d: Deposit, now: int) {
    (d.status == DCreated || d.status == DAwaiting) && d.expiresAt <= now
  }

  function ExpiredIfLapsed(d: Deposit, now: int): Deposit {
    if Lapsed(d, now) then d.(status := DExpired) else d
  }

  /** `expire_deposits` */
  function ExpireDeposits(t: Tables, now: int): Tables {
    t.(deposits := seq(|t.deposits|, i requires 0 <= i < |t.deposits| => ExpiredIfLapsed(t.deposits[i], now)))
  }

  /** `adjust_balance` */
  function Adjust(t: Tables, user: nat, amount: int, currency: Currency): Result<Tables, Failure> {
    if amount == 0 then Err(ZeroAdjustment)
    else Ok(t.(adjustments := t.adjustments + [AdjustmentRow(user, amount, currency)]))
  }

  // ---------------------------------------------------------------- runs

  datatype Action =
    | DoIssue(issue: Issue)
    | DoApproveReward(reward: nat)
    | DoHold(reward: nat)
    | DoReject(reward: nat)
    | DoReverse(reward: nat)
    | DoApproveDue(cutoff: int, manualRules: set<nat>)
    | DoRequest(request: Request)
    | DoApproveWithdrawal(withdrawal: nat, approver: Option<nat>, second: Option<nat>)
    | DoPay(withdrawal: nat)
    | DoRejectWithdrawal(withdrawal: nat)
    | DoCreateDeposit(user: nat, amount: int, currency: Option<Currency>, enabled: bool, now: int)
    | DoConfirm(deposit: nat)
    | DoExpire(now: int)
    | DoAdjust(user: nat, amount: int, inCurrency: Currency)

  function OrSame(r: Result<Tables, Failure>, t: Tables): Tables {
    if r.Ok? then r.value else t
  }

  /** One call; a call that raises leaves the tables alone. */
  ghost function Step(t: Tables, x: Action): Tables {
    match x
    case DoIssue(q) => (match IssueReward(t, q) case Ok(r) => r.tables case Err(_) => t)
    case DoApproveReward(i) => OrSame(ApproveReward(t, i), t)
    case DoHold(i) => OrSame(HoldReward(t, i), t)
    case DoReject(i) => OrSame(RejectReward(t, i), t)
    case DoReverse(i) => OrSame(ReverseReward(t, i), t)
    case DoApproveDue(cutoff, manual) => ApproveDue(t, cutoff, manual)
    case DoRequest(q) =>
      OrSame(RequestWithdrawal(t, q, Expected(t, UserAccount(q.user, Cash, RequestCurrency(t, q)))), t)
    case DoApproveWithdrawal(i, approver, second) => OrSame(ApproveWithdrawal(t, i, approver, second), t)
    case DoPay(i) => OrSame(MarkPaid(t, i), t)
    case DoRejectWithdrawal(i) => OrSame(RejectWithdrawal(t, i), t)
    case DoCreateDeposit(user, amount, currency, enabled, now) =>
      OrSame(CreateDeposit(t, user, amount, currency, enabled, now), t)
    case DoConfirm(i) => OrSame(ConfirmDeposit(t, i), t)
    case DoExpire(now) => ExpireDeposits(t, now)
    case DoAdjust(user, amount, c) => OrSame(Adjust(t, user, amount, c), t)
  }

  ghost function Run(t: Tables, xs: seq<Action>): Tables {
    if xs == [] then t else Step(Run(t, xs[..|xs| - 1]), xs[|xs| - 1])
  }

  function Fresh(wallets: map<nat, Currency>): Tables {
    Tables([], [], [], [], wallets)
  }
}
