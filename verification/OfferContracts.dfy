/** What is promised of postbacks and campaign quotas, told from the delivery and the site before and
    after.  Times are in microseconds. */
module OfferContracts {
  import opened Outcomes
  import opened Decimals
  import opened Ledger
  import RewardMath
  import opened MoneyTables
  import opened Platforms
  import opened Offers

  // ---------------------------------------------------------------- quotas

  /** An hour has passed since the hour counter was last reset. */
  predicate HourOver(q: Quota, now: int) {
    q.lastHour.None? || now >= q.lastHour.value + 3600000000
  }

  /** The day counter was last reset on another UTC day. */
  predicate DayOver(q: Quota, now: int) {
    q.lastDay.None? || q.lastDay.value / 86400000000 != now / 86400000000
  }

  /** `r` is the quota `q` with `counted` more conversions at `now`: a counter whose time is over
      starts again. */
  predicate Counts(q: Quota, r: Quota, now: int, counted: nat) {
    && r.dailyCap == q.dailyCap && r.hourlyCap == q.hourlyCap && r.countryCap == q.countryCap
    && r.lifetime == q.lifetime + counted
    && (HourOver(q, now) ==> r.thisHour == counted && r.lastHour == Some(now))
    && (!HourOver(q, now) ==> r.thisHour == q.thisHour + counted && r.lastHour == q.lastHour)
    && (DayOver(q, now) ==> r.today == counted && r.lastDay == Some(now))
    && (!DayOver(q, now) ==> r.today == q.today + counted && r.lastDay == q.lastDay)
  }

  /** The offer's quota, created if there was none, counts one conversion more; an offer whose day is
      full then is paused, and nothing else changes. */
  ghost predicate CountedOnce(desk: Desk, offer: nat, now: int, after: Desk) {
    && offer in desk.offers && offer in after.quotas
    && after == desk.(quotas := desk.quotas[offer := after.quotas[offer]], offers := after.offers)
    && Counts(if offer in desk.quotas then desk.quotas[offer]
              else Quota(dailyCap := None, hourlyCap := None, countryCap := map[], today := 0, thisHour := 0,
                         lifetime := 0, lastHour := None, lastDay := None), after.quotas[offer], now, 1)
    && var q, o := after.quotas[offer], desk.offers[offer];
       after.offers == desk.offers[offer := if q.dailyCap.Some? && q.today >= q.dailyCap.value
                                            then o.(status := PausedByQuota) else o]
  }

  lemma BumpCountsOnce(desk: Desk, offer: nat, now: int)
    requires offer in desk.offers
    ensures CountedOnce(desk, offer, now, BumpQuota(desk, offer, now))
  {
    var after := BumpQuota(desk, offer, now);
    assert desk.offers[offer := desk.offers[offer]] == desk.offers;
    assert Counts(if offer in desk.quotas then desk.quotas[offer] else NEW_QUOTA, after.quotas[offer], now, 1);
  }

  predicate Free(q: Quota) {
    (q.dailyCap.Some? ==> q.today < q.dailyCap.value) && (q.hourlyCap.Some? ==> q.thisHour < q.hourlyCap.value)
  }

  /** Every counter whose time is over starts again at zero, exactly the offers that were paused by
      their quota and have room again are resumed, and the reported numbers count both. */
  ghost predicate Recalculated(desk: Desk, now: int, after: Desk, reset: nat, resumed: nat) {
    && after.conversions == desk.conversions && after.clock == now
    && after.quotas.Keys == desk.quotas.Keys && after.offers.Keys == desk.offers.Keys
    && (forall o | o in desk.quotas :: Counts(desk.quotas[o], after.quotas[o], now, 0))
    && (forall o | o in desk.offers ::
          after.offers[o] == if ToResume(desk, after, o) then desk.offers[o].(status := Active) else desk.offers[o])
    && reset == |set o | o in desk.quotas && (HourOver(desk.quotas[o], now) || DayOver(desk.quotas[o], now))|
    && resumed == |set o | o in desk.quotas && ToResume(desk, after, o)|
  }

  predicate ToResume(desk: Desk, after: Desk, o: nat) {
    && o in desk.offers && desk.offers[o].status == PausedByQuota
    && o in after.quotas && Free(after.quotas[o])
  }

  // ---------------------------------------------------------------- postbacks

  predicate Recorded(cs: seq<Conversion>, d: Delivery) {
    exists i | 0 <= i < |cs| :: cs[i].provider == d.provider && cs[i].externalId == d.externalId
  }

  /** The offer that a delivery is for: traffic for an unknown one provisions it, once per user. */
  function OfferFor(desk: Desk, d: Delivery): Offer {
    if d.offer in desk.offers then desk.offers[d.offer]
    else Offer(status := Active, expiresAt := None, incentiveAllowed := d.providerConsents, countries := [],
               devices := [], multipleAllowed := false, dailyUserLimit := 1, lifetimeUserLimit := 1)
  }

  /** The row is about the delivery. */
  predicate RowFor(c: Conversion, d: Delivery) {
    && c.provider == d.provider && c.externalId == d.externalId && d.user == Some(c.user) && c.offer == d.offer
    && c.createdAt == d.createdAt
  }

  /** A row that pays nothing was recorded, for an offer that may have been provisioned. */
  ghost predicate RejectionRecorded(s: Site, d: Delivery, u: Site) {
    && u.tables == s.tables && u.desk.quotas == s.desk.quotas
    && u.desk.offers == s.desk.offers[d.offer := OfferFor(s.desk, d)]
    && |u.desk.conversions| == |s.desk.conversions| + 1
    && u.desk.conversions[..|s.desk.conversions|] == s.desk.conversions
    && var c := u.desk.conversions[|s.desk.conversions|];
       RowFor(c, d) && c.status == Rejected && c.userReward == 0 && c.reward.None? && c.approvedAt.None?
  }

  /** What reward rules are matched against. */
  function ContextOf(d: Delivery): RewardMath.Context {
    RewardMath.Context(source := RewardMath.Source.Offer, providerCode := d.providerCode, campaignType := "offer",
                       country := d.country, userTier := "", payout := Some(d.payout))
  }

  /** The award that a delivery earns: under the first rule for it, for its payout in USD. */
  function EarnedAward(d: Delivery, user: nat, n: nat): Award {
    Award(user := user, source := RewardMath.Source.Offer, ref := ConversionRef(n), gross := Some(d.payout),
          rule := None, providerCode := d.providerCode, campaignType := "offer", country := d.country,
          userTier := "", rewardCurrency := None, revenueCurrency := USD, autoApprove := None, rate := d.rate,
          now := d.createdAt)
  }

  /** The conversion was approved and rewarded, and its offer's quota counts it. */
  ghost predicate ConversionRecorded(s: Site, b: Book, d: Delivery, found: Option<nat>, u: Site, c: Book)
    requires found.Some? ==> found.value < |d.rules|
    requires d.user.Some?
  {
    var n := |s.desk.conversions|;
    && |u.desk.conversions| == n + 1 && u.desk.conversions[..n] == s.desk.conversions
    && var row := u.desk.conversions[n];
       && RowFor(row, d) && row.status == Approved && row.approvedAt == Some(d.approvedAt) && row.reward.Some?
       && row.reward.value < |u.tables.rewards| && row.userReward == u.tables.rewards[row.reward.value].cash
       && AwardAnswers(s.tables, b, EarnedAward(d, d.user.value, n), d.rules, found,
                       Ok((row.reward.value, |u.tables.rewards| > |s.tables.rewards|)), u.tables, c)
       && CountedOnce(
            s.desk.(offers := s.desk.offers[d.offer := OfferFor(s.desk, d)], conversions := u.desk.conversions,
                    clock := u.desk.clock),
            d.offer, d.countedAt, u.desk)
  }

  /** No reason holds, and the risk is low. */
  ghost predicate NothingAgainst(desk: Desk, d: Delivery, user: nat) {
    d.riskScore < 51 && forall r: Reason :: !Holds(r, OfferFor(desk, d), desk, d, user)
  }

  /** What becomes of a postback.  A bad signature, an unreadable payload, a known id or an unknown user
      leave everything as it was; a new id is converted exactly if the provider approved it, nothing
      speaks against it and the risk is low, unless awarding raises. */
  ghost predicate PostbackAnswers(s: Site, b: Book, d: Delivery, found: Option<nat>, outcome: Outcome, u: Site, c: Book)
    requires found.Some? ==> found.value < |d.rules|
  {
    var cs := s.desk.conversions;
    var readable := d.signatureValid && d.parsed;
    var unseen := readable && !Recorded(cs, d) && d.user.Some?;
    var good := unseen && d.approved && NothingAgainst(s.desk, d, d.user.value);
    && (!unseen ==> u == s && c == b)
    && (!d.signatureValid ==> outcome == InvalidSignature)
    && (d.signatureValid && !d.parsed ==> outcome == ParseError)
    && (readable && Recorded(cs, d) ==>
          outcome.Duplicate? && outcome.conversion < |cs| && cs[outcome.conversion].provider == d.provider
          && cs[outcome.conversion].externalId == d.externalId)
    && (readable && !Recorded(cs, d) && d.user.None? ==> outcome == UnknownUser)
    && (unseen && !d.approved ==> outcome == RejectedByProvider(|cs|))
    && (unseen && d.approved && !good ==> outcome == Ineligible(|cs|))
    && (unseen && !good ==> RejectionRecorded(s, d, u) && c == b)
    && (good ==>
          if outcome.Raised? then
            && u == s && c == b
            && AwardAnswers(s.tables, b, EarnedAward(d, d.user.value, |cs|), d.rules, found, Err(outcome.failure),
                            s.tables, b)
          else outcome == Converted(|cs|) && ConversionRecorded(s, b, d, found, u, c))
  }

  lemma FoundIffRecorded(cs: seq<Conversion>, d: Delivery)
    ensures FindConversion(cs, d.provider, d.externalId) >= 0 <==> Recorded(cs, d)
  {
  }

  lemma ProvisionedIsOfferFor(desk: Desk, d: Delivery)
    ensures WithOffer(desk, d) == desk.(offers := desk.offers[d.offer := OfferFor(desk, d)])
  {
    assert d.offer in desk.offers ==> desk.offers[d.offer := desk.offers[d.offer]] == desk.offers;
  }

  lemma RejectionIsRecorded(s: Site, d: Delivery)
    requires d.user.Some?
    ensures var row := RejectedRow(d, d.user.value);
            RejectionRecorded(s, d, s.(desk := WithRow(WithOffer(s.desk, d), row, d.createdAt)))
  {
    ProvisionedIsOfferFor(s.desk, d);
  }

  lemma ConversionIsRecorded(s: Site, b: Book, d: Delivery, found: Option<nat>, issued: Issued, c: Book)
    requires (found.Some? ==> found.value < |d.rules|) && d.user.Some?
    requires issued.reward < |issued.tables.rewards|
    requires issued.created <==> |issued.tables.rewards| > |s.tables.rewards|
    requires AwardAnswers(s.tables, b, EarnedAward(d, d.user.value, |s.desk.conversions|), d.rules, found,
                          Ok((issued.reward, issued.created)), issued.tables, c)
    ensures d.offer in WithOffer(s.desk, d).offers
    ensures var desk := WithOffer(s.desk, d);
            var row := ApprovedRow(desk, d, d.user.value, issued);
            ConversionRecorded(s, b, d, found,
                               Site(BumpQuota(WithRow(desk, row, d.countedAt), d.offer, d.countedAt), issued.tables), c)
  {
    hide AwardAnswers, BumpQuota, CountedOnce, Refreshed;
    var desk := WithOffer(s.desk, d);
    var row := ApprovedRow(desk, d, d.user.value, issued);
    ProvisionedIsOfferFor(s.desk, d);
    BumpCountsOnce(WithRow(desk, row, d.countedAt), d.offer, d.countedAt);
    BumpKeepsRows(WithRow(desk, row, d.countedAt), d.offer, d.countedAt);
  }

  lemma AwardGrows(t: Tables, b: Book, d: Delivery, user: nat, n: nat, found: Option<nat>,
                   r: Result<(nat, bool), Failure>, u: Tables, c: Book)
    requires (found.Some? ==> found.value < |d.rules|) && r.Ok?
    requires AwardAnswers(t, b, EarnedAward(d, user, n), d.rules, found, r, u, c)
    ensures r.value.0 < |u.rewards| && (r.value.1 <==> |u.rewards| > |t.rewards|)
  {
  }

  lemma BumpKeepsRows(desk: Desk, offer: nat, now: int)
    requires offer in desk.offers
    ensures BumpQuota(desk, offer, now).conversions == desk.conversions
    ensures BumpQuota(desk, offer, now).clock == desk.clock
  {
  }

  lemma AwardIsEarned(d: Delivery, user: nat, n: nat)
    ensures AwardFor(d, user, n) == EarnedAward(d, user, n)
  {
  }

  lemma EligibleIsGood(s: Site, d: Delivery, user: nat)
    ensures d.offer in WithOffer(s.desk, d).offers
    ensures Evaluate(WithOffer(s.desk, d), d, user) == Eligible <==> NothingAgainst(s.desk, d, user)
  {
    hide Evaluate, Holds;
    var desk, o := WithOffer(s.desk, d), OfferFor(s.desk, d);
    EligibleIff(desk, d, user);
    assert desk.offers[d.offer] == o;
    forall r: Reason ensures Holds(r, o, desk, d, user) <==> Holds(r, o, s.desk, d, user) {
      SameReasons(r, o, s.desk, d, user);
    }
  }

  lemma SameReasons(r: Reason, o: Offer, desk: Desk, d: Delivery, user: nat)
    ensures Holds(r, o, WithOffer(desk, d), d, user) <==> Holds(r, o, desk, d, user)
  {
  }

  lemma PostbackIsAnswered(s: Site, b: Book, d: Delivery, found: Option<nat>, outcome: Outcome, u: Site, c: Book)
    requires (found.Some? ==> found.value < |d.rules|) && (u, outcome) == Deliver(s, d, found)
    requires !outcome.Converted? ==> c == b
    requires outcome.Raised? ==>
               d.user.Some?
               && AwardAnswers(s.tables, b, EarnedAward(d, d.user.value, |s.desk.conversions|), d.rules, found,
                               Err(outcome.failure), s.tables, b)
    requires outcome.Converted? ==> d.user.Some? && ConversionRecorded(s, b, d, found, u, c)
    ensures PostbackAnswers(s, b, d, found, outcome, u, c)
  {
    hide Evaluate, NothingAgainst, OfferFor, AwardOutcome, AwardAnswers, BumpQuota, ConversionRecorded;
    hide RejectionRecorded, FindConversion, Recorded, WithOffer, WithRow, RejectedRow, ApprovedRow;
    hide EarnedAward, AwardFor;
    var known := FindConversion(s.desk.conversions, d.provider, d.externalId);
    FoundIffRecorded(s.desk.conversions, d);
    if d.user.Some? {
      EligibleIsGood(s, d, d.user.value);
      RejectionIsRecorded(s, d);
    }
  }
}
