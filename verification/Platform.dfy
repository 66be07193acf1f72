/** The money services as a database that is changed step by step (apps/rewards/services.py,
    apps/rewards/tasks.py, apps/withdrawals/services.py, apps/deposits, apps/wallets/services.py).

    Each method does what the service does: it posts to the ledger by key, then updates its row.
    Its contract says only what it does to the tables; `Valid` says that the ledger follows. */
module Platforms {
  import opened Calendar
  import opened Outcomes
  import opened Decimals
  import opened Accounts
  import opened Ledger
  import opened LedgerStores
  import opened RewardMath
  import opened WithdrawalPolicy
  import opened Spec = MoneyTables
  import opened Lifecycles
  import opened Refinement
  import opened ServiceContracts

  /** The arguments of `award`; a rule is identified by its position in evaluation order. */
  datatype Award = Award(
    user: nat,
    source: Source,
    ref: Ref,
    gross: Option<real>,
    rule: Option<nat>,
    providerCode: string,
    campaignType: string,
    country: string,
    userTier: string,
    rewardCurrency: Option<Currency>,
    revenueCurrency: Currency,
    autoApprove: Option<bool>,
    rate: real,
    now: int)

  function AwardContext(q: Award): Context {
    Context(q.source, q.providerCode, q.campaignType, q.country, q.userTier, q.gross)
  }

  /** The reward that `award` issues under a rule, or the conversion error that it raises. */
  function AwardIssue(q: Award, rules: seq<Rule>, found: Option<nat>): Result<Issue, Failure>
    requires found.Some? ==> found.value < |rules|
  {
    var rule := if found.Some? then Some(rules[found.value]) else None;
    var currency :=
      if q.rewardCurrency.Some? then q.rewardCurrency.value
      else if rule.Some? then rule.value.rewardCurrency
      else PKR;
    match ComputeAward(rule, q.gross, q.revenueCurrency, currency, q.rate)
    case Err(e) => Err(Unconvertible(e))
    case Ok(x) =>
      var auto := if q.autoApprove.Some? then q.autoApprove.value else !(rule.Some? && rule.value.manual);
      Ok(Issue(q.user, q.source, q.ref, found, x.platformShare, x.cash, x.points, currency, q.now, auto))
  }

  /** `award` as a whole: known claims are answered at once, then the rule decides. */
  function AwardOutcome(t: Tables, q: Award, rules: seq<Rule>, found: Option<nat>): Result<Issued, Failure>
    requires found.Some? ==> found.value < |rules|
  {
    var i := FindClaim(t.rewards, q.user, q.source, q.ref);
    if i >= 0 then Ok(Issued(t, i, false))
    else
      match AwardIssue(q, rules, found)
      case Err(e) => Err(e)
      case Ok(issue) => IssueReward(t, issue)
  }

  /** What a caller of `award` is promised.  A claim is rewarded once.  A payout in a currency that does
      not convert raises.  Otherwise the new row is for the caller's user, source and reference, in the
      currency asked for, else the rule's, else PKR; it has exactly the cash, points and share that are
      owed under the rule, and waits for approval only if the caller, or else the rule, says so. */
  ghost predicate AwardAnswers(t: Tables, b: Book, q: Award, rules: seq<Rule>, found: Option<nat>,
                               r: Result<(nat, bool), Failure>, u: Tables, c: Book)
    requires found.Some? ==> found.value < |rules|
  {
    var rule := if found.Some? then Some(rules[found.value]) else None;
    var currency := if q.rewardCurrency.Some? then q.rewardCurrency.value
                    else if rule.Some? then rule.value.rewardCurrency else PKR;
    if Claimed(t.rewards, q.user, q.source, q.ref) then
      && r.Ok? && !r.value.1 && r.value.0 < |t.rewards| && Claims(t.rewards[r.value.0], q.user, q.source, q.ref)
      && Unchanged(t, b, u, c)
    else if q.gross.Some? && !Convertible(q.revenueCurrency, currency, q.rate) then
      r.Err? && r.error.Unconvertible? && Unchanged(t, b, u, c)
    else if r.Ok? then
      && r == Ok((|t.rewards|, true))
      && u == t.(rewards := u.rewards) && |u.rewards| == |t.rewards| + 1 && u.rewards[..|t.rewards|] == t.rewards
      && var row := u.rewards[|t.rewards|];
         && row.user == q.user && row.source == q.source && row.ref == q.ref && row.rule == found
         && row.currency == currency && row.createdAt == q.now && !row.held
         && Owed(rule, q.gross, q.revenueCurrency, currency, q.rate, Amounts(row.cash, row.points, row.share))
         && (row.cash > 0 || row.points > 0)
         && (q.autoApprove == Some(true) ==> row.status == RApproved)
         && (q.autoApprove == Some(false) ==> row.status == RPending)
         && (q.autoApprove.None? ==> row.status == (if rule.Some? && rule.value.manual then RPending else RApproved))
         && Credited(row, b, c)
    else
      && r == Err(ZeroReward) && Unchanged(t, b, u, c)
      && exists x :: Owed(rule, q.gross, q.revenueCurrency, currency, q.rate, x) && x.cash <= 0 && x.points <= 0
  }

  lemma AwardIsAnswered(t: Tables, b: Book, q: Award, rules: seq<Rule>, found: Option<nat>,
                        r: Result<(nat, bool), Failure>, u: Tables, c: Book)
    requires found.Some? ==> found.value < |rules|
    requires Inv(b, t) && Inv(c, u)
    requires match AwardOutcome(t, q, rules, found)
             case Ok(x) => r == Ok((x.reward, x.created)) && u == x.tables && (!x.created ==> c == b)
             case Err(e) => r == Err(e) && u == t && c == b
    ensures AwardAnswers(t, b, q, rules, found, r, u, c)
  {
    hide Inv, Credited, Owed, Convertible, ComputeAward;
    FoundIffClaimed(t.rewards, q.user, q.source, q.ref);
    var rule := if found.Some? then Some(rules[found.value]) else None;
    var currency := if q.rewardCurrency.Some? then q.rewardCurrency.value
                    else if rule.Some? then rule.value.rewardCurrency else PKR;
    var x := ComputeAward(rule, q.gross, q.revenueCurrency, currency, q.rate);
    AwardComesTo(rule, q.gross, q.revenueCurrency, currency, q.rate, if x.Ok? then x.value else Amounts(0, 0, None));
    if r.Ok? && r.value.1 {
      assert u.rewards[..|t.rewards|] == t.rewards;
      NewRewardIsCredited(t, b, u.rewards[|t.rewards|], c);
    }
  }

  /** What the row of an award keeps of its rule: its cash never exceeds the cap, and a rule that names
      only fixed amounts, without a multiplier, pays exactly these. */
  lemma AwardedRowKeepsRule(t: Tables, b: Book, q: Award, rules: seq<Rule>, found: Option<nat>,
                            r: Result<(nat, bool), Failure>, u: Tables, c: Book)
    requires found.Some? && found.value < |rules|
    requires AwardAnswers(t, b, q, rules, found, r, u, c) && r.Ok? && r.value.1
    ensures |u.rewards| == |t.rewards| + 1
    ensures var rule, row := rules[found.value], u.rewards[|t.rewards|];
            && (rule.maxUserReward.Some? ==> row.cash <= rule.maxUserReward.value)
            && (rule.userPercentage.None? && rule.pointsPercentage.None? && rule.maxUserReward.None?
                && rule.multiplier in {0.0, 1.0} ==>
                  && row.cash == (if rule.fixedCash.Some? then rule.fixedCash.value else 0)
                  && row.points == (if rule.fixedPoints.Some? then rule.fixedPoints.value else 0))
  {
    hide Credited, Owed, Convertible, ComputeAward, Claimed;
    var rule, row := rules[found.value], u.rewards[|t.rewards|];
    var x := Amounts(row.cash, row.points, row.share);
    AwardComesTo(Some(rule), q.gross, q.revenueCurrency, row.currency, q.rate, x);
    if rule.maxUserReward.Some? {
      CashNeverExceedsCap(rule, q.gross, q.revenueCurrency, row.currency, q.rate);
    } else if rule.userPercentage.None? && rule.pointsPercentage.None? && rule.multiplier in {0.0, 1.0} {
      FixedRulePaysItsAmounts(rule, q.gross, q.revenueCurrency, row.currency, q.rate);
    }
  }

  /** The rows that are due. */
  ghost function DueRows(rows: seq<Reward>, cutoff: int, manualRules: set<nat>): set<int> {
    set i | 0 <= i < |rows| && Due(rows[i], cutoff, manualRules)
  }

  lemma NothingDue(rows: seq<Reward>, cutoff: int, manualRules: set<nat>)
    requires rows == []
    ensures DueRows(rows, cutoff, manualRules) == {}
  {
  }

  lemma OneMoreDue(rows: seq<Reward>, n: nat, cutoff: int, manualRules: set<nat>)
    requires n < |rows|
    ensures |DueRows(rows[..n + 1], cutoff, manualRules)|
            == |DueRows(rows[..n], cutoff, manualRules)| + (if Due(rows[n], cutoff, manualRules) then 1 else 0)
  {
    hide Due;
    assert DueRows(rows[..n + 1], cutoff, manualRules)
        == DueRows(rows[..n], cutoff, manualRules) + (if Due(rows[n], cutoff, manualRules) then {n} else {});
  }

  lemma DueAreApproved(t: Tables, cutoff: int, manualRules: set<nat>)
    ensures DueApproved(t, cutoff, manualRules, |DueRows(t.rewards, cutoff, manualRules)|,
                        ApproveDue(t, cutoff, manualRules))
  {
    assert forall r: Reward :: Due(r, cutoff, manualRules) <==> Approvable(r, cutoff, manualRules);
    assert DueRows(t.rewards, cutoff, manualRules)
        == set i | 0 <= i < |t.rewards| && Approvable(t.rewards[i], cutoff, manualRules);
  }

  class Platform {
    const store: LedgerStore
    const wallets: map<nat, Currency>
    var rewards: seq<Reward>
    var withdrawals: seq<Withdrawal>
    var deposits: seq<Deposit>
    var adjustments: seq<AdjustmentRow>

    ghost function T(): Tables
      reads this
    {
      Tables(rewards, withdrawals, deposits, adjustments, wallets)
    }

    ghost predicate Valid()
      reads this, store
    {
      Inv(store.View(), T()) && UniqueClaims(rewards)
    }

    constructor (wallets: map<nat, Currency>)
      ensures Valid() && fresh(store) && T() == Fresh(wallets)
    {
      this.wallets := wallets;
      rewards, withdrawals, deposits, adjustments := [], [], [], [];
      store := new LedgerStore();
      new;
      FreshInv(wallets);
    }

    // -------------------------------------------------------------- ledger helpers

    /** `get_account` and `system_account`: the row is provisioned, no money changes. */
    method GetAccount(owner: Owner, kind: Kind, currency: Currency) returns (a: Account)
      requires BookOk(store.View())
      modifies store
      ensures a == Account(owner, kind, currency) && a in store.balances
      ensures SameMoney(old(store.View()), store.View()) && store.txns == old(store.txns)
    {
      var wallet := if owner.User? && owner.id in wallets then wallets[owner.id] else PKR;
      ghost var before := store.View();
      a := store.GetAccount(owner, kind, currency, wallet);
      ProvisionKeeps(before, DefaultAccounts(owner, wallet) + {a});
    }

    /** A posting of two entries between accounts that may first have to be provisioned.  When the
        ledger refuses it, the enclosing `atomic` block rolls the provisioning back. */
    method TryTransfer(key: Option<Key>, source: Account, target: Account, amount: int)
        returns (r: Result<(), LedgerError>)
      requires BookOk(store.View())
      requires key.Some? ==> !key.value.Reversal? && StateOf(store.View(), key.value) == Absent
      modifies store
      ensures if source.currency == target.currency || amount == 0
              then r == Ok(()) && Moved(old(store.View()), store.View(), key, source, target, amount)
              else r == Err(CurrencyUnbalanced) && store.View() == old(store.View())
    {
      var saved := store.balances;
      ghost var b := store.View();
      var x := GetAccount(source.owner, source.kind, source.currency);
      var y := GetAccount(target.owner, target.kind, target.currency);
      ghost var ready := store.View();
      if source.currency == target.currency || amount == 0 {
        TransferPosts(ready, key, source, target, amount);
      } else {
        TransferRefused(ready, key, source, target, amount);
      }
      var posted := store.PostTransaction(key, Transfer(x, y, amount));
      if posted.Err? {
        store.balances := saved;
        return Err(posted.error);
      }
      MovedAfterProvisioning(b, ready, store.View(), key, source, target, amount);
      return Ok(());
    }

    /** The same between accounts of one currency, which the ledger accepts. */
    method PostTransfer(key: Option<Key>, source: Account, target: Account, amount: int)
      requires BookOk(store.View())
      requires key.Some? ==> !key.value.Reversal? && StateOf(store.View(), key.value) == Absent
      requires source.currency == target.currency
      modifies store
      ensures Moved(old(store.View()), store.View(), key, source, target, amount)
    {
      var _ := TryTransfer(key, source, target, amount);
    }

    /** Rewards post their cash and their points only when there is a positive amount of them. */
    method PostIfPositive(key: Key, source: Account, target: Account, amount: int)
      requires BookOk(store.View()) && !key.Reversal? && StateOf(store.View(), key) == Absent
      requires source.currency == target.currency
      modifies store
      ensures MovedIfPositive(old(store.View()), store.View(), key, source, target, amount)
      ensures BookOk(store.View())
      ensures forall k | k != key :: StateOf(store.View(), k) == old(StateOf(store.View(), k))
    {
      if amount > 0 {
        PostTransfer(Some(key), source, target, amount);
      }
    }

    // -------------------------------------------------------------- rewards

    method FindReward(user: nat, source: Source, ref: Ref) returns (i: int)
      ensures i == FindClaim(rewards, user, source, ref)
    {
      assert rewards[..|rewards|] == rewards;
      i := -1;
      for n := 0 to |rewards|
        invariant i == FindClaim(rewards[..n], user, source, ref)
      {
        assert rewards[..n + 1][..n] == rewards[..n];
        if i < 0 && SameClaim(rewards[n], user, source, ref) {
          i := n;
        }
      }
    }

    /** `_issue` */
    method Issue(q: Issue) returns (r: Result<(nat, bool), Failure>)
      requires Valid()
      modifies this, store
      ensures Valid()
      ensures match IssueReward(old(T()), q) {
                case Ok(x) => r == Ok((x.reward, x.created)) && T() == x.tables
                              && (!x.created ==> store.View() == old(store.View()))
                case Err(e) => r == Err(e) && T() == old(T()) && store.View() == old(store.View())
              }
      ensures IssueAnswers(old(T()), old(store.View()), q, r, T(), store.View())
    {
      hide Inv, UniqueClaims, IssueAnswers;
      var existing := FindReward(q.user, q.source, q.ref);
      if existing >= 0 {
        r := Ok((existing, false));
      } else if q.cash <= 0 && q.points <= 0 {
        r := Err(ZeroReward);
      } else {
        var i := |rewards|;
        CreatePending(q);
        if q.autoApprove {
          var _ := ApproveReward(i);
        }
        r := Ok((i, true));
      }
      IssueIsAnswered(old(T()), old(store.View()), q, r, T(), store.View());
    }

    /** The row is created PENDING; its cash and points are put on hold. */
    method CreatePending(q: Issue)
      requires Valid() && FindClaim(rewards, q.user, q.source, q.ref) < 0
      modifies this, store
      ensures Valid() && T() == old(T()).(rewards := old(rewards) + [NewReward(q).(status := RPending)])
    {
      hide BalancesOk, FindClaim, UniqueClaims;
      var i := |rewards|;
      var row := NewReward(q).(status := RPending);
      ghost var b, t := store.View(), T();
      NewKeysAbsent(b, t);
      PostIfPositive(RewardPending(i), PlatformCash(row.currency), UserAccount(row.user, Pending, row.currency),
          row.cash);
      ghost var mid := store.View();
      PostIfPositive(RewardPendingPoints(i), PLATFORM_POINTS, PLATFORM_PENDING_POINTS, row.points);
      IssueKeeps(b, t, row, mid, store.View());
      NewRewardKeepsClaims(t, q.(autoApprove := false));
      rewards := rewards + [row];
    }

    /** `award` */
    method MakeAward(q: Award, rules: seq<Rule>) returns (r: Result<(nat, bool), Failure>, ghost found: Option<nat>)
      requires Valid() && (q.rule.Some? ==> q.rule.value < |rules|)
      modifies this, store
      ensures Valid()
      ensures if q.rule.Some? then found == q.rule
              else IsFirstMatch(rules, Context(source := q.source, providerCode := q.providerCode,
                                               campaignType := q.campaignType, country := q.country,
                                               userTier := q.userTier, payout := q.gross), found)
      ensures match AwardOutcome(old(T()), q, rules, found) {
                case Ok(x) => r == Ok((x.reward, x.created)) && T() == x.tables
                              && (!x.created ==> store.View() == old(store.View()))
                case Err(e) => r == Err(e) && T() == old(T()) && store.View() == old(store.View())
              }
      ensures AwardAnswers(old(T()), old(store.View()), q, rules, found, r, T(), store.View())
    {
      hide Inv, UniqueClaims, AwardAnswers, IssueAnswers, AwardIssue, IssueReward;
      var existing := FindReward(q.user, q.source, q.ref);
      var rule := q.rule;
      if rule.None? {
        rule := ResolveRule(rules, AwardContext(q));
      }
      found := rule;
      if existing >= 0 {
        r := Ok((existing, false));
      } else {
        var issue := AwardIssue(q, rules, rule);
        if issue.Err? {
          r := Err(issue.error);
        } else {
          r := Issue(issue.value);
        }
      }
      AwardIsAnswered(old(T()), old(store.View()), q, rules, found, r, T(), store.View());
    }

    /** `award_fixed`: the amounts are quantised and issued as they are. */
    method AwardFixed(user: nat, source: Source, ref: Ref, cash: real, points: real, currency: Currency,
                      autoApprove: bool, now: int) returns (r: Result<(nat, bool), Failure>)
      requires Valid()
      modifies this, store
      ensures Valid()
      ensures var q := Spec.Issue(user, source, ref, None, None, Quantize(cash), Quantize(points), currency, now,
          autoApprove);
              match IssueReward(old(T()), q) {
                case Ok(x) => r == Ok((x.reward, x.created)) && T() == x.tables
                              && (!x.created ==> store.View() == old(store.View()))
                case Err(e) => r == Err(e) && T() == old(T()) && store.View() == old(store.View())
              }
      ensures IssueAnswers(old(T()), old(store.View()),
                           Spec.Issue(user, source, ref, None, None, Quantize(cash), Quantize(points), currency, now,
                               autoApprove), r, T(), store.View())
    {
      hide IssueAnswers;
      r := Issue(Spec.Issue(user, source, ref, None, None, Quantize(cash), Quantize(points), currency, now,
          autoApprove));
    }

    /** `approve` */
    method ApproveReward(i: nat) returns (r: Result<(), Failure>)
      requires Valid()
      modifies this, store
      ensures Valid() && Applied(old(T()), Spec.ApproveReward(old(T()), i), r)
      ensures r.Err? ==> store.View() == old(store.View())
      ensures ApprovalOfReward(old(T()), old(store.View()), i, r, T(), store.View())
    {
      hide Inv, UniqueClaims, ApprovalOfReward;
      if i >= |rewards| {
        r := Err(MissingRow);
      } else if rewards[i].status == RApproved {
        r := Ok(());
      } else if rewards[i].status != RPending {
        r := Err(WrongStatus);
      } else {
        ReleaseReward(i);
        r := Ok(());
      }
      ApprovalIsPromised(old(T()), old(store.View()), i, r, T(), store.View());
    }

    /** The reward's cash and points are released, and the row becomes APPROVED. */
    method ReleaseReward(i: nat)
      requires Valid() && i < |rewards| && rewards[i].status == RPending
      modifies this, store
      ensures Valid() && T() == WithReward(old(T()), i, old(rewards)[i].(status := RApproved))
    {
      var row := rewards[i];
      ghost var b, t := store.View(), T();
      assert Inv(b, t);
      ApprovalKeysAbsent(b, t, i);
      PostIfPositive(RewardApprove(i), UserAccount(row.user, Pending, row.currency),
                     UserAccount(row.user, Cash, row.currency), row.cash);
      ghost var mid := store.View();
      PostIfPositive(RewardApprovePoints(i), PLATFORM_PENDING_POINTS, UserAccount(row.user, Points, POINTS),
          row.points);
      ghost var c := store.View();
      UpdatedRewardKeepsClaims(rewards, i, row.(status := RApproved));
      rewards := rewards[i := row.(status := RApproved)];
      assert Inv(c, WithReward(t, i, row.(status := RApproved))) by {
        assert Released(b, mid, c, i, t.rewards[i]);
        ApprovalKeeps(b, t, i, mid, c);
      }
    }

    /** `hold` */
    method HoldReward(i: nat) returns (r: Result<(), Failure>)
      requires Valid()
      modifies this, store
      ensures Valid() && Applied(old(T()), Spec.HoldReward(old(T()), i), r)
      ensures HoldOfReward(old(T()), old(store.View()), i, r, T(), store.View())
    {
      if i >= |rewards| {
        return Err(MissingRow);
      }
      if rewards[i].status != RPending {
        return Err(WrongStatus);
      }
      HoldKeeps(store.View(), T(), i);
      UpdatedRewardKeepsClaims(rewards, i, rewards[i].(held := true));
      rewards := rewards[i := rewards[i].(held := true)];
      return Ok(());
    }

    /** `reject` */
    method RejectReward(i: nat) returns (r: Result<(), Failure>)
      requires Valid()
      modifies this, store
      ensures Valid() && Applied(old(T()), Spec.RejectReward(old(T()), i), r)
      ensures r.Err? ==> store.View() == old(store.View())
      ensures RejectionOfReward(old(T()), old(store.View()), i, r, T(), store.View())
    {
      hide RejectionOfReward;
      if i >= |rewards| {
        r := Err(MissingRow);
      } else if rewards[i].status != RPending {
        r := Err(WrongStatus);
      } else {
        ReversalKeeps(store.View(), T(), i, RRejected);
        UpdatedRewardKeepsClaims(rewards, i, rewards[i].(status := RRejected));
        store.ReverseByKeys(IssueKeys(i));
        rewards := rewards[i := rewards[i].(status := RRejected)];
        r := Ok(());
      }
      RejectionIsPromised(old(T()), old(store.View()), i, r, T(), store.View());
    }

    /** `reverse`: a reward that is already reversed is left alone. */
    method ReverseReward(i: nat) returns (r: Result<(), Failure>)
      requires Valid()
      modifies this, store
      ensures Valid() && Applied(old(T()), Spec.ReverseReward(old(T()), i), r)
      ensures r.Err? ==> store.View() == old(store.View())
      ensures ReversalOfReward(old(T()), old(store.View()), i, r, T(), store.View())
    {
      hide ReversalOfReward;
      if i >= |rewards| {
        r := Err(MissingRow);
      } else if rewards[i].status == RReversed {
        r := Ok(());
      } else if rewards[i].status != RPending && rewards[i].status != RApproved {
        r := Err(WrongStatus);
      } else {
        ReversalKeeps(store.View(), T(), i, RReversed);
        UpdatedRewardKeepsClaims(rewards, i, rewards[i].(status := RReversed));
        store.ReverseByKeys(if rewards[i].status == RPending then IssueKeys(i) else AllKeys(i));
        rewards := rewards[i := rewards[i].(status := RReversed)];
        r := Ok(());
      }
      ReversalIsPromised(old(T()), old(store.View()), i, r, T(), store.View());
    }

    /** `process_pending_rewards` */
    method ProcessPendingRewards(cutoff: int, manualRules: set<nat>) returns (approved: nat)
      requires Valid()
      modifies this, store
      ensures Valid() && T() == ApproveDue(old(T()), cutoff, manualRules)
      ensures DueApproved(old(T()), cutoff, manualRules, approved, T())
    {
      hide Refinement.Inv, UniqueClaims, DueRows, DueApproved, ApprovalOfReward;
      approved := 0;
      ghost var was := rewards;
      NothingDue(was[..0], cutoff, manualRules);
      for i := 0 to |rewards|
        invariant Valid() && |rewards| == |was|
        invariant T() == old(T()).(rewards := rewards)
        invariant forall j | 0 <= j < i :: rewards[j] == ApprovedIfDue(was[j], cutoff, manualRules)
        invariant forall j | i <= j < |was| :: rewards[j] == was[j]
        invariant approved == |DueRows(was[..i], cutoff, manualRules)|
      {
        OneMoreDue(was, i, cutoff, manualRules);
        if Due(rewards[i], cutoff, manualRules) {
          var _ := ApproveReward(i);
          approved := approved + 1;
        }
      }
      assert was[..|was|] == was;
      DueAreApproved(old(T()), cutoff, manualRules);
    }

    // -------------------------------------------------------------- withdrawals

    /** `request_withdrawal`.  Provisioned rows are rolled back when the request is refused. */
    method RequestWithdrawal(q: Request) returns (r: Result<nat, Failure>)
      requires Valid()
      modifies this, store
      ensures Valid()
      ensures var cash := Expected(old(T()), UserAccount(q.user, Cash, RequestCurrency(old(T()), q)));
              match Spec.RequestWithdrawal(old(T()), q, cash) {
                case Ok(t) => r == Ok(|old(withdrawals)|) && T() == t
                case Err(e) => r == Err(e) && T() == old(T()) && store.View() == old(store.View())
              }
      ensures RequestAnswers(old(T()), old(store.View()), q, r, T(), store.View())
    {
      hide WithdrawalPolicy.Decide, Expected, Refinement.Moved, UniqueClaims, RequestAnswers;
      var saved := store.balances;
      ghost var b, t := store.View(), T();
      var currency := if q.currency.Some? then q.currency.value else if q.user in wallets then wallets[q.user] else PKR;
      var account := GetAccount(User(q.user), Cash, currency);
      var cash := store.balances[account];
      ghost var ready := store.View();
      assert cash == Bal(store.balances, account) == Bal(b.balances, account) == Expected(t, account);
      var recent := RecentRequest(q);
      var decision := Decide(q.amount, currency, q.settings,
                             Circumstances(q.restricted, q.kycApproved, recent, q.methodVerified,
                                           if q.frozen then 0 else cash));
      if decision.Err? {
        store.balances := saved;
        r := Err(Declined(decision.error));
      } else {
        var i := |withdrawals|;
        var row := Withdrawal(q.user, q.amount, currency, decision.value, q.now, WRequested, None, None);
        assert KeyOk(t, WithdrawalReserve(i), StateOf(b, WithdrawalReserve(i)));
        PostTransfer(Some(WithdrawalReserve(i)), account, UserAccount(q.user, Locked, currency), q.amount);
        MovedAfterProvisioning(b, ready, store.View(), Some(WithdrawalReserve(i)), account,
                               UserAccount(q.user, Locked, currency), q.amount);
        NewWithdrawalKeeps(b, t, row, store.View());
        withdrawals := withdrawals + [row];
        r := Ok(i);
      }
      RequestIsAnswered(t, b, q, r, T(), store.View());
    }

    method RecentRequest(q: Request) returns (recent: bool)
      ensures recent <==> RecentWithdrawal(T(), q)
    {
      var cutoff := q.now - q.settings.cooldownHours * MICROS_PER_HOUR;
      for i := 0 to |withdrawals|
        invariant forall j | 0 <= j < i ::
                    !(&& withdrawals[j].user == q.user && withdrawals[j].status != WRejected
                      && withdrawals[j].requestedAt >= cutoff)
      {
        var w := withdrawals[i];
        if w.user == q.user && w.status != WRejected && w.requestedAt >= cutoff {
          return true;
        }
      }
      return false;
    }

    /** `approve_withdrawal` */
    method ApproveWithdrawal(i: nat, approver: Option<nat>, second: Option<nat>) returns (r: Result<(), Failure>)
      requires Valid()
      modifies this
      ensures Valid() && Applied(old(T()), Spec.ApproveWithdrawal(old(T()), i, approver, second), r)
      ensures ApprovalOfWithdrawal(old(T()), i, approver, second, r, T())
    {
      hide ApprovalOfWithdrawal;
      ghost var t := T();
      if i >= |withdrawals| {
        r := Err(MissingRow);
      } else if withdrawals[i].status != WRequested && withdrawals[i].status != WUnderReview {
        r := Err(WrongStatus);
      } else {
        var w := withdrawals[i];
        if w.terms.dual && approver.Some? {
          if w.approvedBy.Some? && w.approvedBy != approver {
            w := w.(secondApprover := if second.Some? then second else approver);
          } else {
            w := w.(approvedBy := approver);
          }
        } else if approver.Some? {
          w := w.(approvedBy := approver);
        }
        if w.terms.dual && !(w.approvedBy.Some? && w.secondApprover.Some?) {
          w := w.(status := WUnderReview);
        } else {
          w := w.(status := WProcessing);
        }
        ReviewKeeps(store.View(), T(), i, w);
        withdrawals := withdrawals[i := w];
        r := Ok(());
      }
      ReviewIsPromised(t, i, approver, second, r, T());
    }

    /** `mark_paid` */
    method MarkPaid(i: nat) returns (r: Result<(), Failure>)
      requires Valid()
      modifies this, store
      ensures Valid() && Applied(old(T()), Spec.MarkPaid(old(T()), i), r)
      ensures r.Err? ==> store.View() == old(store.View())
      ensures PaymentOfWithdrawal(old(T()), old(store.View()), i, r, T(), store.View())
    {
      hide PaymentOfWithdrawal;
      ghost var b, t := store.View(), T();
      if i >= |withdrawals| {
        r := Err(MissingRow);
      } else if withdrawals[i].status != WApproved && withdrawals[i].status != WProcessing {
        r := Err(WrongStatus);
      } else {
        var w := withdrawals[i];
        assert KeyOk(t, WithdrawalPayout(i), StateOf(b, WithdrawalPayout(i)));
        PostTransfer(Some(WithdrawalPayout(i)), UserAccount(w.user, Locked, w.currency), PlatformCash(w.currency),
            w.amount);
        PayKeeps(b, t, i, store.View());
        withdrawals := withdrawals[i := w.(status := WPaid)];
        r := Ok(());
      }
      PaymentIsPromised(t, b, i, r, T(), store.View());
    }

    /** `reject_withdrawal` */
    method RejectWithdrawal(i: nat) returns (r: Result<(), Failure>)
      requires Valid()
      modifies this, store
      ensures Valid() && Applied(old(T()), Spec.RejectWithdrawal(old(T()), i), r)
      ensures r.Err? ==> store.View() == old(store.View())
      ensures RejectionOfWithdrawal(old(T()), old(store.View()), i, r, T(), store.View())
    {
      hide RejectionOfWithdrawal;
      ghost var b, t := store.View(), T();
      if i >= |withdrawals| {
        r := Err(MissingRow);
      } else if withdrawals[i].status in {WPaid, WRejected, WCancelled} {
        r := Err(WrongStatus);
      } else {
        var w := withdrawals[i];
        assert KeyOk(t, WithdrawalRefund(i), StateOf(b, WithdrawalRefund(i)));
        PostTransfer(Some(WithdrawalRefund(i)), UserAccount(w.user, Locked, w.currency),
                     UserAccount(w.user, Cash, w.currency), w.amount);
        RefundKeeps(b, t, i, store.View());
        withdrawals := withdrawals[i := w.(status := WRejected)];
        r := Ok(());
      }
      WithdrawalRejectionIsPromised(t, b, i, r, T(), store.View());
    }

    // -------------------------------------------------------------- deposits and adjustments

    /** `create_deposit` */
    method CreateDeposit(user: nat, amount: int, currency: Option<Currency>, enabled: bool, now: int)
      returns (r: Result<(), Failure>)
      requires Valid()
      modifies this
      ensures Valid() && Applied(old(T()), Spec.CreateDeposit(old(T()), user, amount, currency, enabled, now), r)
      ensures DepositCreated(old(T()), user, amount, currency, enabled, now, r, T())
    {
      if amount <= 0 {
        return Err(NotPositive);
      }
      if !enabled {
        return Err(DepositsDisabled);
      }
      var c := if currency.Some? then currency.value else if user in wallets then wallets[user] else PKR;
      var d := Deposit(user, amount, c, 0, DCreated);
      d := d.(status := DAwaiting, expiresAt := now + DEPOSIT_WINDOW);
      NewDepositKeeps(store.View(), T(), d);
      deposits := deposits + [d];
      return Ok(());
    }

    /** `confirm_deposit` */
    method ConfirmDeposit(i: nat) returns (r: Result<(), Failure>)
      requires Valid()
      modifies this, store
      ensures Valid() && Applied(old(T()), Spec.ConfirmDeposit(old(T()), i), r)
      ensures r.Err? ==> store.View() == old(store.View())
      ensures DepositConfirmed(old(T()), old(store.View()), i, r, T(), store.View())
    {
      hide DepositConfirmed;
      ghost var b, t := store.View(), T();
      if i >= |deposits| {
        r := Err(MissingRow);
      } else if deposits[i].status == DConfirmed {
        r := Ok(());
      } else if deposits[i].status in {DFailed, DExpired, DRefunded} {
        r := Err(WrongStatus);
      } else {
        var d := deposits[i];
        var wallet := if d.user in wallets then wallets[d.user] else PKR;
        assert KeyOk(t, DepositCredit(i), StateOf(b, DepositCredit(i)));
        var posted :=
          TryTransfer(Some(DepositCredit(i)), PlatformCash(USD), UserAccount(d.user, Cash, wallet), d.amount);
        if posted.Err? {
          r := Err(LedgerRefused(posted.error));
        } else {
          ConfirmKeeps(b, t, i, store.View());
          deposits := deposits[i := d.(status := DConfirmed)];
          r := Ok(());
        }
      }
      ConfirmationIsPromised(t, b, i, r, T(), store.View());
    }

    /** `expire_deposits` */
    method ExpireDeposits(now: int)
      requires Valid()
      modifies this
      ensures Valid() && T() == Spec.ExpireDeposits(old(T()), now)
      ensures DepositsExpired(old(T()), now, T())
    {
      ghost var was := deposits;
      for i := 0 to |deposits|
        invariant Valid() && |deposits| == |was|
        invariant T() == old(T()).(deposits := deposits)
        invariant forall j | 0 <= j < i :: deposits[j] == ExpiredIfLapsed(was[j], now)
        invariant forall j | i <= j < |was| :: deposits[j] == was[j]
      {
        if Lapsed(deposits[i], now) {
          ExpiryKeeps(store.View(), T(), i);
          deposits := deposits[i := deposits[i].(status := DExpired)];
        }
      }
    }

    /** `adjust_balance` */
    method AdjustBalance(user: nat, amount: int, currency: Currency) returns (r: Result<(), Failure>)
      requires Valid()
      modifies this, store
      ensures Valid() && Applied(old(T()), Adjust(old(T()), user, amount, currency), r)
      ensures r.Err? ==> store.View() == old(store.View())
      ensures Adjusted(old(T()), old(store.View()), user, amount, currency, r, T(), store.View())
    {
      hide Adjusted;
      ghost var b, t := store.View(), T();
      if amount == 0 {
        r := Err(ZeroAdjustment);
      } else {
        PostTransfer(None, PlatformCash(currency), UserAccount(user, Cash, currency), amount);
        AdjustmentKeeps(b, t, AdjustmentRow(user, amount, currency), store.View());
        adjustments := adjustments + [AdjustmentRow(user, amount, currency)];
        r := Ok(());
      }
      AdjustmentIsPromised(t, b, user, amount, currency, r, T(), store.View());
    }

    /** A call did to the tables what its specification says, or raised and left them alone. */
    ghost predicate Applied(before: Tables, outcome: Result<Tables, Failure>, r: Result<(), Failure>)
      reads this
    {
      match outcome
      case Ok(t) => r == Ok(()) && T() == t
      case Err(e) => r == Err(e) && T() == before
    }

    // -------------------------------------------------------------- whole runs

    /** One service call. */
    method Call(x: Action)
      requires Valid()
      modifies this, store
      ensures Valid() && T() == Step(old(T()), x)
    {
      hide Refinement.Inv, UniqueClaims, Expected;
      hide IssueReward, Spec.ApproveReward, Spec.HoldReward, Spec.RejectReward, Spec.ReverseReward, ApproveDue;
      hide Spec.RequestWithdrawal, Spec.ApproveWithdrawal, Spec.MarkPaid, Spec.RejectWithdrawal;
      hide Spec.CreateDeposit, Spec.ConfirmDeposit, Spec.ExpireDeposits, Adjust;
      hide IssueAnswers, ApprovalOfReward, HoldOfReward, RejectionOfReward, ReversalOfReward, DueApproved;
      hide RequestAnswers, ApprovalOfWithdrawal, PaymentOfWithdrawal, RejectionOfWithdrawal;
      hide DepositCreated, DepositConfirmed, DepositsExpired, Adjusted;
      match x {
        case DoIssue(q) => var _ := Issue(q);
        case DoApproveReward(i) => var _ := ApproveReward(i);
        case DoHold(i) => var _ := HoldReward(i);
        case DoReject(i) => var _ := RejectReward(i);
        case DoReverse(i) => var _ := ReverseReward(i);
        case DoApproveDue(cutoff, manualRules) => var _ := ProcessPendingRewards(cutoff, manualRules);
        case DoRequest(q) => var _ := RequestWithdrawal(q);
        case DoApproveWithdrawal(i, approver, second) => var _ := ApproveWithdrawal(i, approver, second);
        case DoPay(i) => var _ := MarkPaid(i);
        case DoRejectWithdrawal(i) => var _ := RejectWithdrawal(i);
        case DoCreateDeposit(user, amount, currency, enabled, now) =>
          var _ := CreateDeposit(user, amount, currency, enabled, now);
        case DoConfirm(i) => var _ := ConfirmDeposit(i);
        case DoExpire(now) => ExpireDeposits(now);
        case DoAdjust(user, amount, currency) => var _ := AdjustBalance(user, amount, currency);
      }
    }

    /** The refinement theorem: after any sequence of service calls, with whatever arguments and
        errors, the tables are those of the table machine and the ledger is the one they call for. */
    method Replay(xs: seq<Action>)
      requires Valid()
      modifies this, store
      ensures Valid() && T() == Run(old(T()), xs)
    {
      assert xs[..0] == [];
      for i := 0 to |xs|
        invariant Valid() && T() == Run(old(T()), xs[..i])
      {
        Call(xs[i]);
        assert xs[..i + 1][..i] == xs[..i];
      }
      assert xs[..|xs|] == xs;
    }
  }
}
