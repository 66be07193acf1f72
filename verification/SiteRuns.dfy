/** Postbacks together with the money services: what the ledger holds for a conversion after any run. */
module SiteRuns {
  import opened Outcomes
  import opened Decimals
  import opened Accounts
  import opened Ledger
  import RewardMath
  import opened MoneyTables
  import opened Lifecycles
  import opened Refinement
  import opened Platforms
  import opened PlatformRuns
  import opened Offers
  import opened OfferContracts
  import opened OfferRuns
  import opened OfferDesks

  // ---------------------------------------------------------------- every conversion has its delivery

  /** The row stems from a delivery that was signed and readable, and is approved only if the provider
      approved it. */
  predicate StemsFrom(c: Conversion, d: Delivery) {
    && d.signatureValid && d.parsed && RowFor(c, d)
    && (c.status == Approved ==> d.approved && c.approvedAt == Some(d.approvedAt))
  }

  /** An approved row's reward is exactly what a rule, or none, owes for the payout of the delivery. */
  predicate PaysFor(c: Conversion, rs: seq<Reward>, d: Delivery, found: Option<nat>) {
    c.status == Approved ==>
      && c.reward.Some? && c.reward.value < |rs| && (found.Some? ==> found.value < |d.rules|)
      && var r, rule := rs[c.reward.value], if found.Some? then Some(d.rules[found.value]) else None;
         && r.user == c.user && r.source == RewardMath.Source.Offer && r.rule == found
         && r.currency == (if rule.Some? then rule.value.rewardCurrency else PKR)
         && RewardMath.Owed(rule, Some(d.payout), USD, r.currency, d.rate,
                            RewardMath.Amounts(r.cash, r.points, r.share))
  }

  predicate ComesOf(c: Conversion, rs: seq<Reward>, e: Event) {
    e.Postback? && StemsFrom(c, e.delivery) && PaysFor(c, rs, e.delivery, e.found)
  }

  lemma PayLasts(c: Conversion, rs: seq<Reward>, e: Event, later: seq<Reward>)
    requires ComesOf(c, rs, e) && |rs| <= |later| && forall r | 0 <= r < |rs| :: RewardEvolves(rs[r], later[r])
    ensures ComesOf(c, later, e)
  {
    hide RewardMath.Owed;
  }

  lemma SiteStepEvolves(s: Site, e: Event)
    ensures var rs, later := s.tables.rewards, SiteStep(s, e).tables.rewards;
            |rs| <= |later| && forall r | 0 <= r < |rs| :: RewardEvolves(rs[r], later[r])
  {
    match e
    case Postback(d, found) =>
      if found.Some? ==> found.value < |d.rules| {
        DeliveryAppendsRewards(s, d, found);
      }
    case QuotaTask(_) =>
    case Service(x) => StepEvolves(s.tables, x);
  }

  lemma DeliveryAppendsRewards(s: Site, d: Delivery, found: Option<nat>)
    requires found.Some? ==> found.value < |d.rules|
    ensures s.tables.rewards <= Deliver(s, d, found).0.tables.rewards
  {
    hide Evaluate, AwardIssue, BumpQuota, ApprovedRow;
  }

  /** A new row is the delivery's. */
  lemma NewRowComesOf(s: Site, e: Event)
    requires LinksOk(s) && |SiteStep(s, e).desk.conversions| > |s.desk.conversions|
    ensures var u := SiteStep(s, e);
            |u.desk.conversions| == |s.desk.conversions| + 1
            && ComesOf(u.desk.conversions[|s.desk.conversions|], u.tables.rewards, e)
  {
    hide Deliver, ComesOf, LinksOk, Step;
    match e
    case Postback(d, found) =>
      if found.Some? ==> found.value < |d.rules| {
        DeliveryRowComesOf(s, d, found);
      }
    case QuotaTask(_) =>
    case Service(_) =>
  }

  lemma DeliveryRowComesOf(s: Site, d: Delivery, found: Option<nat>)
    requires LinksOk(s) && (found.Some? ==> found.value < |d.rules|)
    requires |Deliver(s, d, found).0.desk.conversions| > |s.desk.conversions|
    ensures var u := Deliver(s, d, found).0;
            |u.desk.conversions| == |s.desk.conversions| + 1
            && ComesOf(u.desk.conversions[|s.desk.conversions|], u.tables.rewards, Postback(d, found))
  {
    hide LinksOk, RewardMath.Owed, Evaluate, AwardOutcome, FindClaim, FindConversion;
    if Deliver(s, d, found).1.Converted? {
      NewConversionIsUnclaimed(s, d.user.value);
      NewRewardIsOwed(s.tables, d, d.user.value, |s.desk.conversions|, found);
    }
  }

  lemma NewRewardIsOwed(t: Tables, d: Delivery, user: nat, n: nat, found: Option<nat>)
    requires (found.Some? ==> found.value < |d.rules|) && AwardOutcome(t, AwardFor(d, user, n), d.rules, found).Ok?
    requires FindClaim(t.rewards, user, RewardMath.Source.Offer, ConversionRef(n)) < 0
    ensures var issued := AwardOutcome(t, AwardFor(d, user, n), d.rules, found).value;
            var rule := if found.Some? then Some(d.rules[found.value]) else None;
            && issued.reward == |t.rewards| && |issued.tables.rewards| == |t.rewards| + 1
            && var r := issued.tables.rewards[|t.rewards|];
               && r.user == user && r.source == RewardMath.Source.Offer && r.rule == found
               && r.currency == (if rule.Some? then rule.value.rewardCurrency else PKR)
               && RewardMath.Owed(rule, Some(d.payout), USD, r.currency, d.rate,
                                  RewardMath.Amounts(r.cash, r.points, r.share))
  {
    hide RewardMath.Owed, RewardMath.ComputeAward;
    var rule := if found.Some? then Some(d.rules[found.value]) else None;
    var r := AwardOutcome(t, AwardFor(d, user, n), d.rules, found).value.tables.rewards[|t.rewards|];
    RewardMath.AwardComesTo(rule, Some(d.payout), USD, r.currency, d.rate,
                            RewardMath.Amounts(r.cash, r.points, r.share));
  }

  ghost predicate HasDelivery(c: Conversion, rs: seq<Reward>, es: seq<Event>) {
    exists n :: 0 <= n < |es| && ComesOf(c, rs, es[n])
  }

  ghost predicate AllHaveDeliveries(u: Site, es: seq<Event>) {
    forall i | 0 <= i < |u.desk.conversions| :: HasDelivery(u.desk.conversions[i], u.tables.rewards, es)
  }

  /** On every run, each conversion stems from a postback of the run that was signed and readable; an
      approved one from a postback that the provider approved, and its reward is exactly what is owed
      for the payout of that postback. */
  lemma {:induction false} EveryConversionHasDelivery(s: Site, es: seq<Event>)
    requires Unconverted(s) && forall e | e in es :: OwnClaims(e)
    ensures AllHaveDeliveries(SiteRun(s, es), es)
  {
    hide SiteStep, ComesOf, OwnClaims, LinksOk;
    if es != [] {
      var m := |es| - 1;
      var before, u := SiteRun(s, es[..m]), SiteRun(s, es);
      OneConversionOneReward(s, es[..m]);
      EveryConversionHasDelivery(s, es[..m]);
      StepAppendsConversions(before, es[m]);
      SiteStepEvolves(before, es[m]);
      forall i | 0 <= i < |u.desk.conversions|
        ensures HasDelivery(u.desk.conversions[i], u.tables.rewards, es)
      {
        if i < |before.desk.conversions| {
          assert HasDelivery(before.desk.conversions[i], before.tables.rewards, es[..m]);
          var n :| 0 <= n < m && ComesOf(before.desk.conversions[i], before.tables.rewards, es[..m][n]);
          PayLasts(before.desk.conversions[i], before.tables.rewards, es[n], u.tables.rewards);
        } else {
          NewRowComesOf(before, es[m]);
        }
      }
    }
  }

  // ---------------------------------------------------------------- what the ledger holds for a conversion

  /** The posting that credits an issued reward: once, and taken back with the reward. */
  predicate CreditedOnce(r: Reward, amount: int, source: Account, target: Account, s: KeyState) {
    s == if amount <= 0 then Absent else if LiveReward(r) then Live(Transfer(source, target, amount)) else Undone
  }

  /** An approved conversion has exactly one reward, of the amount that its row shows, whose pending
      cash and points the ledger holds as long as the reward is neither rejected nor reversed; any
      other conversion has no reward. */
  ghost predicate CreditsFollow(u: Site, i: nat, cash: KeyState, points: KeyState) {
    var cs, rs := u.desk.conversions, u.tables.rewards;
    if i < |cs| && cs[i].status == Approved then
      && cs[i].reward.Some? && cs[i].reward.value < |rs|
      && (forall q | 0 <= q < |rs| :: rs[q].ref == ConversionRef(i) <==> q == cs[i].reward.value)
      && var r := rs[cs[i].reward.value];
         && r.user == cs[i].user && r.cash == cs[i].userReward
         && CreditedOnce(r, r.cash, PlatformCash(r.currency), UserAccount(r.user, Pending, r.currency), cash)
         && CreditedOnce(r, r.points, PLATFORM_POINTS, PLATFORM_PENDING_POINTS, points)
    else
      && cash == Absent && points == Absent
      && (forall q | 0 <= q < |rs| :: rs[q].ref != ConversionRef(i))
  }

  lemma LinkedCreditsFollow(b: Book, u: Site, i: nat)
    requires LinksOk(u) && KeysOk(b, u.tables)
    ensures var cs := u.desk.conversions;
            if i < |cs| && cs[i].reward.Some? then
              CreditsFollow(u, i, StateOf(b, RewardPending(cs[i].reward.value)),
                            StateOf(b, RewardPendingPoints(cs[i].reward.value)))
            else CreditsFollow(u, i, Absent, Absent)
  {
    hide StateOf;
    var cs, rs := u.desk.conversions, u.tables.rewards;
    forall q | 0 <= q < |rs| ensures rs[q].ref == ConversionRef(i) ==> i < |cs| && cs[i].reward == Some(q) {
      assert BackLinkOk(cs, rs, q);
    }
    if i < |cs| {
      assert LinkOk(cs, rs, i);
      if cs[i].reward.Some? {
        var r := cs[i].reward.value;
        assert KeyOk(u.tables, RewardPending(r), StateOf(b, RewardPending(r)));
        assert KeyOk(u.tables, RewardPendingPoints(r), StateOf(b, RewardPendingPoints(r)));
      }
    }
  }

  /** What was done for the events: for each postback, some reward rule was found. */
  ghost predicate Served(es: seq<Event>, done: seq<Event>) {
    |done| == |es| && forall n | 0 <= n < |es| :: SameEvent(es[n], done[n])
  }

  lemma SameClaims(es: seq<Event>, done: seq<Event>)
    requires Served(es, done)
    requires forall e | e in es :: OwnClaims(e)
    ensures forall e | e in done :: OwnClaims(e)
  {
    forall e | e in done ensures OwnClaims(e) {
      var n :| 0 <= n < |done| && done[n] == e;
      assert SameEvent(es[n], done[n]) && es[n] in es;
    }
  }

  /** From an empty database on, after any postbacks, quota tasks and money services: what the ledger
      holds for a conversion. */
  method ConversionCreditAfter(wallets: map<nat, Currency>, offers: map<nat, Offer>, quotas: map<nat, Quota>,
                               es: seq<Event>, i: nat)
    returns (cash: KeyState, points: KeyState)
    requires quotas.Keys <= offers.Keys && forall e | e in es :: OwnClaims(e)
    ensures var s := Site(Desk(offers, quotas, [], 0), Fresh(wallets));
            exists done ::
              && Served(es, done) && CreditsFollow(SiteRun(s, done), i, cash, points)
              && AllHaveDeliveries(SiteRun(s, done), done)
  {
    hide SiteRun, BookOk, BalancesOk, KeysOk, LinksOk, SameEvent, CreditsFollow, StateOf, AllHaveDeliveries;
    var p := new Platform(wallets);
    var desk := new OfferDesk(p, offers, quotas);
    ghost var s := desk.S();
    ghost var done := desk.Replay(es);
    assert Served(es, done);
    SameClaims(es, done);
    OneConversionOneReward(s, done);
    EveryConversionHasDelivery(s, done);
    LinkedCreditsFollow(p.store.View(), desk.S(), i);
    cash, points := Absent, Absent;
    if i < |desk.conversions| && desk.conversions[i].reward.Some? {
      var r := desk.conversions[i].reward.value;
      cash := LookUp(p.store, RewardPending(r));
      points := LookUp(p.store, RewardPendingPoints(r));
    }
  }
}
