/** Wallet accounts and idempotency keys (apps/wallets/models.py, apps/wallets/services.py). */
module Accounts {
  import opened Decimals

  /** The platform's own wallet, or a user's. */
  datatype Owner = System | User(id: nat)

  datatype Kind = Cash | Points | Bonus | Pending | Locked | Withdrawable | DepositFunds

  /** A row of the accounts table: owner, type and currency are unique together. */
  datatype Account = Account(owner: Owner, kind: Kind, currency: Currency)

  /** The accounts that `ensure_accounts` provisions for a wallet in a currency. */
  function DefaultAccounts(owner: Owner, currency: Currency): set<Account> {
    { Account(owner, Cash, currency), Account(owner, Bonus, currency), Account(owner, Pending, currency),
      Account(owner, Locked, currency), Account(owner, Withdrawable, currency),
      Account(owner, DepositFunds, currency), Account(owner, Points, POINTS) }
  }

  const PLATFORM_POINTS := Account(System, Points, POINTS)
  const PLATFORM_PENDING_POINTS := Account(System, Pending, POINTS)

  /** The kinds that `total_liability` adds up. */
  predicate OwedKind(kind: Kind) {
    kind in {Cash, Locked, Withdrawable, Pending}
  }

  /** Idempotency keys by what they identify; rows are identified by their number. */
  datatype Key =
    | RewardPending(reward: nat)
    | RewardPendingPoints(reward: nat)
    | RewardApprove(reward: nat)
    | RewardApprovePoints(reward: nat)
    | WithdrawalReserve(withdrawal: nat)
    | WithdrawalPayout(withdrawal: nat)
    | WithdrawalRefund(withdrawal: nat)
    | DepositCredit(deposit: nat)
    | Reversal(txn: nat)

  /** The texts of the primary keys of the four tables that keys mention. */
  datatype Names = Names(reward: nat -> string, withdrawal: nat -> string, deposit: nat -> string, txn: nat -> string)

  predicate ColonFree(s: string) {
    ':' !in s
  }

  ghost predicate DistinctNames(name: nat -> string) {
    && (forall i: nat :: ColonFree(name(i)))
    && (forall i: nat, j: nat | name(i) == name(j) :: i == j)
  }

  ghost predicate ProperNames(names: Names) {
    && DistinctNames(names.reward) && DistinctNames(names.withdrawal)
    && DistinctNames(names.deposit) && DistinctNames(names.txn)
  }

  function Join(head: string, rest: string): string {
    head + ":" + rest
  }

  /** The text stored in the unique `idempotency_key` column. */
  function KeyText(k: Key, names: Names): string {
    match k
    case RewardPending(r) => Join("reward", Join(names.reward(r), "pending"))
    case RewardPendingPoints(r) => Join("reward", Join(names.reward(r), Join("pending", "points")))
    case RewardApprove(r) => Join("reward", Join(names.reward(r), "approve"))
    case RewardApprovePoints(r) => Join("reward", Join(names.reward(r), Join("approve", "points")))
    case WithdrawalReserve(w) => Join("withdrawal", Join(names.withdrawal(w), "reserve"))
    case WithdrawalPayout(w) => Join("withdrawal", Join(names.withdrawal(w), "payout"))
    case WithdrawalRefund(w) => Join("withdrawal", Join(names.withdrawal(w), "refund"))
    case DepositCredit(d) => Join("deposit", names.deposit(d))
    case Reversal(t) => Join("reversal", names.txn(t))
  }

  /** The text before the first colon, and what follows it, are determined by the whole. */
  lemma JoinIsInjective(h1: string, r1: string, h2: string, r2: string)
    requires ColonFree(h1) && ColonFree(h2) && Join(h1, r1) == Join(h2, r2)
    ensures h1 == h2 && r1 == r2
  {
    var s := Join(h1, r1);
    assert s[|h1|] == ':' && s[|h2|] == ':';
    assert forall i | 0 <= i < |h1| :: s[i] == h1[i];
    assert forall i | 0 <= i < |h2| :: s[i] == h2[i];
    assert |h1| == |h2|;
    assert h1 == s[..|h1|] && h2 == s[..|h2|];
    assert r1 == s[|h1| + 1..] && r2 == s[|h2| + 1..];
  }

  function Family(k: Key): string {
    match k
    case RewardPending(_) => "reward"
    case RewardPendingPoints(_) => "reward"
    case RewardApprove(_) => "reward"
    case RewardApprovePoints(_) => "reward"
    case WithdrawalReserve(_) => "withdrawal"
    case WithdrawalPayout(_) => "withdrawal"
    case WithdrawalRefund(_) => "withdrawal"
    case DepositCredit(_) => "deposit"
    case Reversal(_) => "reversal"
  }

  /** The row that a key names, and the step of that row. */
  function RowName(k: Key, names: Names): string {
    match k
    case RewardPending(r) => names.reward(r)
    case RewardPendingPoints(r) => names.reward(r)
    case RewardApprove(r) => names.reward(r)
    case RewardApprovePoints(r) => names.reward(r)
    case WithdrawalReserve(w) => names.withdrawal(w)
    case WithdrawalPayout(w) => names.withdrawal(w)
    case WithdrawalRefund(w) => names.withdrawal(w)
    case DepositCredit(d) => names.deposit(d)
    case Reversal(t) => names.txn(t)
  }

  function StepText(k: Key): string {
    match k
    case RewardPending(_) => "pending"
    case RewardPendingPoints(_) => Join("pending", "points")
    case RewardApprove(_) => "approve"
    case RewardApprovePoints(_) => Join("approve", "points")
    case WithdrawalReserve(_) => "reserve"
    case WithdrawalPayout(_) => "payout"
    case WithdrawalRefund(_) => "refund"
    case DepositCredit(_) => ""
    case Reversal(_) => ""
  }

  predicate HasStep(k: Key) {
    !k.DepositCredit? && !k.Reversal?
  }

  /** Key texts never collide: two keys have the same text only if they are the same key. */
  lemma KeyTextsNeverCollide(k1: Key, k2: Key, names: Names)
    requires ProperNames(names)
    ensures KeyText(k1, names) == KeyText(k2, names) <==> k1 == k2
  {
    if KeyText(k1, names) == KeyText(k2, names) {
      KeyTextParts(k1, names);
      KeyTextParts(k2, names);
      JoinIsInjective(Family(k1), RestText(k1, names), Family(k2), RestText(k2, names));
      FamiliesDiffer(k1, k2);
      if HasStep(k1) {
        JoinIsInjective(RowName(k1, names), StepText(k1), RowName(k2, names), StepText(k2));
        StepsDiffer(k1, k2);
      }
    }
  }

  function RestText(k: Key, names: Names): string {
    if HasStep(k) then Join(RowName(k, names), StepText(k)) else RowName(k, names)
  }

  lemma KeyTextParts(k: Key, names: Names)
    ensures KeyText(k, names) == Join(Family(k), RestText(k, names))
    ensures ColonFree(Family(k))
  {
  }

  predicate SameFamily(k1: Key, k2: Key) {
    && (k1.DepositCredit? <==> k2.DepositCredit?)
    && (k1.Reversal? <==> k2.Reversal?)
    && (IsWithdrawalKey(k1) <==> IsWithdrawalKey(k2))
  }

  predicate IsWithdrawalKey(k: Key) {
    k.WithdrawalReserve? || k.WithdrawalPayout? || k.WithdrawalRefund?
  }

  lemma FamiliesDiffer(k1: Key, k2: Key)
    requires Family(k1) == Family(k2)
    ensures SameFamily(k1, k2)
  {
    assert |"reward"| == 6 && |"withdrawal"| == 10 && |"deposit"| == 7 && |"reversal"| == 8;
  }

  lemma StepsDiffer(k1: Key, k2: Key)
    requires SameFamily(k1, k2) && HasStep(k1) && StepText(k1) == StepText(k2)
    ensures (k1.RewardPending? <==> k2.RewardPending?)
            && (k1.RewardPendingPoints? <==> k2.RewardPendingPoints?)
            && (k1.RewardApprove? <==> k2.RewardApprove?)
            && (k1.RewardApprovePoints? <==> k2.RewardApprovePoints?)
            && (k1.WithdrawalReserve? <==> k2.WithdrawalReserve?)
            && (k1.WithdrawalPayout? <==> k2.WithdrawalPayout?)
            && (k1.WithdrawalRefund? <==> k2.WithdrawalRefund?)
  {
    assert StepText(k1)[0] == StepText(k2)[0];
    assert |StepText(k1)| == |StepText(k2)|;
    if IsWithdrawalKey(k1) {
      assert StepText(k1)[2] == StepText(k2)[2];
    }
  }
}
