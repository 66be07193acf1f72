/** Offer conversions as a state machine: postback ingestion, eligibility and campaign quotas
    (apps/offers/services.py, apps/offers/eligibility.py, apps/offers/tasks.py).

    Times are microseconds since the epoch in UTC. */
module Offers {
  import opened Calendar
  import opened Outcomes
  import opened Decimals
  import RewardMath
  import opened Sums
  import opened MoneyTables
  import opened Platforms

  datatype OfferStatus = Active | Paused | Expired | PausedByQuota | DisabledByCompliance

  datatype Offer = Offer(
    status: OfferStatus,
    expiresAt: Option<int>,
    incentiveAllowed: bool,
    countries: seq<string>,
    devices: seq<string>,
    multipleAllowed: bool,
    dailyUserLimit: nat,
    lifetimeUserLimit: nat)

  datatype Quota = Quota(
    dailyCap: Option<nat>,
    hourlyCap: Option<nat>,
    countryCap: map<string, int>,
    today: nat,
    thisHour: nat,
    lifetime: nat,
    lastHour: Option<int>,
    lastDay: Option<int>)

  datatype ConversionStatus = Approved | Rejected

  /** When a conversion was counted, and the start of the hour window it was counted in. */
  datatype Counted = Counted(at: int, window: int)

  /** `counted` is history that the database does not keep. */
  datatype Conversion = Conversion(
    provider: nat,
    externalId: string,
    user: nat,
    offer: nat,
    status: ConversionStatus,
    createdAt: int,
    userReward: int,
    reward: Option<nat>,
    approvedAt: Option<int>,
    counted: Option<Counted>)

  /** `clock` is the latest time that was read. */
  datatype Desk = Desk(offers: map<nat, Offer>, quotas: map<nat, Quota>, conversions: seq<Conversion>, clock: int)

  // ---------------------------------------------------------------- quotas

  const NEW_QUOTA := Quota(None, None, map[], 0, 0, 0, None, None)

  predicate HourDue(q: Quota, now: int) {
    q.lastHour.None? || now - q.lastHour.value >= MICROS_PER_HOUR
  }

  predicate DayDue(q: Quota, now: int) {
    q.lastDay.None? || Day(q.lastDay.value) != Day(now)
  }

  /** The lazy reset of the hour and day counters that both services perform. */
  function Refreshed(q: Quota, now: int): Quota {
    q.(thisHour := if HourDue(q, now) then 0 else q.thisHour,
       lastHour := if HourDue(q, now) then Some(now) else q.lastHour,
       today := if DayDue(q, now) then 0 else q.today,
       lastDay := if DayDue(q, now) then Some(now) else q.lastDay)
  }

  /** `bump_quota` on the quota row. */
  function Bumped(q: Quota, now: int): Quota {
    var r := Refreshed(q, now);
    r.(today := r.today + 1, thisHour := r.thisHour + 1, lifetime := r.lifetime + 1)
  }

  function QuotaOf(desk: Desk, offer: nat): Quota {
    if offer in desk.quotas then desk.quotas[offer] else NEW_QUOTA
  }

  predicate DayFull(q: Quota) {
    q.dailyCap.Some? && q.today >= q.dailyCap.value
  }

  predicate HourFull(q: Quota) {
    q.hourlyCap.Some? && q.thisHour >= q.hourlyCap.value
  }

  /** `bump_quota`: the quota row is created on demand; a full day pauses the offer. */
  function BumpQuota(desk: Desk, offer: nat, now: int): Desk
    requires offer in desk.offers
  {
    var q := Bumped(QuotaOf(desk, offer), now);
    desk.(quotas := desk.quotas[offer := q],
          offers := if DayFull(q) then desk.offers[offer := desk.offers[offer].(status := PausedByQuota)]
              else desk.offers)
  }

  function Resumed(offer: Offer, q: Quota): Offer {
    if offer.status == PausedByQuota && !DayFull(q) && !HourFull(q) then offer.(status := Active) else offer
  }

  /** `recalculate_campaign_quotas` */
  function Recalculate(desk: Desk, now: int): Desk {
    desk.(
      quotas := map o | o in desk.quotas :: Refreshed(desk.quotas[o], now),
      offers := map o | o in desk.offers ::
                  if o in desk.quotas then Resumed(desk.offers[o], Refreshed(desk.quotas[o], now)) else desk.offers[o],
      clock := now)
  }

  // ---------------------------------------------------------------- eligibility

  /** A normalised postback, with what the database says about its user and four clock readings:
      when eligibility is evaluated, when the row is created, when it is approved, and when the quota
      is bumped. */
  datatype Delivery = Delivery(
    signatureValid: bool,
    parsed: bool,
    provider: nat,
    externalId: string,
    user: Option<nat>,
    offer: nat,
    providerConsents: bool,
    approved: bool,
    payout: real,
    providerCode: string,
    country: string,
    device: string,
    offersDisabled: bool,
    riskScore: int,
    rate: real,
    rules: seq<RewardMath.Rule>,
    evaluatedAt: int,
    createdAt: int,
    approvedAt: int,
    countedAt: int)

  datatype Reason =
    | OffersDisabled | OfferNotActive | OfferExpired | IncentiveNotAllowed | CountryNotAllowed | DeviceNotAllowed
    | DailyCapReached | HourlyCapReached | CountryCapReached
    | AlreadyCompleted | LifetimeLimitReached | DailyLimitReached

  datatype Eligibility = Eligible | RequiresReview | NotEligible(reasons: seq<Reason>)

  /** A conversion of this user and offer that was not rejected. */
  function Completes(user: nat, offer: nat): Conversion -> bool {
    (c: Conversion) => c.user == user && c.offer == offer && c.status != Rejected
  }

  function CompletesOn(user: nat, offer: nat, day: int): Conversion -> bool {
    (c: Conversion) => c.user == user && c.offer == offer && c.status != Rejected && Day(c.createdAt) == day
  }

  function When(condition: bool, reason: Reason): seq<Reason> {
    if condition then [reason] else []
  }

  function OfferReasons(o: Offer, d: Delivery): seq<Reason> {
    When(o.status != Active, OfferNotActive)
    + When(o.expiresAt.Some? && o.expiresAt.value <= d.evaluatedAt, OfferExpired)
    + When(!o.incentiveAllowed, IncentiveNotAllowed)
    + When(o.countries != [] && d.country != "" && d.country !in o.countries, CountryNotAllowed)
    + When(o.devices != [] && d.device != "" && d.device !in o.devices, DeviceNotAllowed)
  }

  /** A country that the campaign does not list is capped at a billion. */
  function CountryLimit(q: Quota, country: string): int {
    if country in q.countryCap then q.countryCap[country] else 1000000000
  }

  function QuotaReasons(q: Quota, d: Delivery): seq<Reason> {
    When(DayFull(q), DailyCapReached)
    + When(HourFull(q), HourlyCapReached)
    + When(q.countryCap != map[] && d.country != "" && q.today >= CountryLimit(q, d.country), CountryCapReached)
  }

  function LimitReasons(desk: Desk, o: Offer, d: Delivery, user: nat): seq<Reason> {
    var completed := Count(desk.conversions, Completes(user, d.offer));
    var today := Count(desk.conversions, CompletesOn(user, d.offer, Day(d.evaluatedAt)));
    When(completed > 0 && !o.multipleAllowed, AlreadyCompleted)
    + When(completed >= o.lifetimeUserLimit, LifetimeLimitReached)
    + When(today >= o.dailyUserLimit, DailyLimitReached)
  }

  /** `evaluate_offer`; an offer without a quota row has no campaign caps. */
  function Evaluate(desk: Desk, d: Delivery, user: nat): Eligibility
    requires d.offer in desk.offers
  {
    var o := desk.offers[d.offer];
    var reasons := OfferReasons(o, d) + QuotaReasons(QuotaOf(desk, d.offer), d) + LimitReasons(desk, o, d, user);
    if d.offersDisabled then NotEligible([OffersDisabled])
    else if reasons != [] then NotEligible(reasons)
    else if d.riskScore >= 51 then RequiresReview
    else Eligible
  }

  datatype LimitStatus = LimitStatus(dailyRemaining: nat, lifetimeRemaining: nat, campaignRemaining: Option<nat>,
      canComplete: bool)

  function Remaining(limit: int, used: int): nat {
    if limit > used then limit - used else 0
  }

  /** `limit_status`, as it is shown to the user. */
  function LimitStatusOf(desk: Desk, offer: nat, user: nat, now: int): LimitStatus
    requires offer in desk.offers
  {
    var o, q := desk.offers[offer], QuotaOf(desk, offer);
    var daily := Remaining(o.dailyUserLimit, Count(desk.conversions, CompletesOn(user, offer, Day(now))));
    var lifetime := Remaining(o.lifetimeUserLimit, Count(desk.conversions, Completes(user, offer)));
    var campaign := if q.dailyCap.Some? then Some(Remaining(q.dailyCap.value, q.today)) else None;
    LimitStatus(daily, lifetime, campaign, daily > 0 && lifetime > 0 && (campaign.None? || campaign.value > 0))
  }

  /** The user's conversions of an offer that were not rejected, and those of them from one day. */
  function Completed(cs: seq<Conversion>, user: nat, offer: nat): set<int> {
    set i | 0 <= i < |cs| && cs[i].user == user && cs[i].offer == offer && cs[i].status != Rejected
  }

  function CompletedOn(cs: seq<Conversion>, user: nat, offer: nat, day: int): set<int> {
    set i | 0 <= i < |cs| && cs[i].user == user && cs[i].offer == offer && cs[i].status != Rejected
            && Day(cs[i].createdAt) == day
  }

  lemma CompletesAreCompleted(cs: seq<Conversion>, user: nat, offer: nat, day: int)
    ensures Count(cs, Completes(user, offer)) == |Completed(cs, user, offer)|
    ensures Count(cs, CompletesOn(user, offer, day)) == |CompletedOn(cs, user, offer, day)|
  {
    CountIsCardinality(cs, Completes(user, offer));
    CountIsCardinality(cs, CompletesOn(user, offer, day));
    assert Completed(cs, user, offer) == Positions(cs, Completes(user, offer));
    assert CompletedOn(cs, user, offer, day) == Positions(cs, CompletesOn(user, offer, day));
  }

  /** What each reason says about the offer, its quota if it has one, the user and the delivery. */
  predicate Holds(r: Reason, o: Offer, desk: Desk, d: Delivery, user: nat) {
    var q := if d.offer in desk.quotas then desk.quotas[d.offer]
             else Quota(dailyCap := None, hourlyCap := None, countryCap := map[], today := 0, thisHour := 0,
                        lifetime := 0, lastHour := None, lastDay := None);
    match r
    case OffersDisabled => d.offersDisabled
    case OfferNotActive => o.status != Active
    case OfferExpired => o.expiresAt.Some? && o.expiresAt.value <= d.evaluatedAt
    case IncentiveNotAllowed => !o.incentiveAllowed
    case CountryNotAllowed => o.countries != [] && d.country != "" && d.country !in o.countries
    case DeviceNotAllowed => o.devices != [] && d.device != "" && d.device !in o.devices
    case DailyCapReached => q.dailyCap.Some? && q.dailyCap.value <= q.today
    case HourlyCapReached => q.hourlyCap.Some? && q.hourlyCap.value <= q.thisHour
    case CountryCapReached =>
      q.countryCap != map[] && d.country != ""
      && q.today >= (if d.country in q.countryCap then q.countryCap[d.country] else 1000000000)
    case AlreadyCompleted => !o.multipleAllowed && Completed(desk.conversions, user, d.offer) != {}
    case LifetimeLimitReached => |Completed(desk.conversions, user, d.offer)| >= o.lifetimeUserLimit
    case DailyLimitReached =>
      |CompletedOn(desk.conversions, user, d.offer, Day(d.evaluatedAt))| >= o.dailyUserLimit
  }

  lemma InOfferReasons(o: Offer, d: Delivery, r: Reason)
    ensures r in OfferReasons(o, d) <==>
              match r
              case OfferNotActive => o.status != Active
              case OfferExpired => o.expiresAt.Some? && o.expiresAt.value <= d.evaluatedAt
              case IncentiveNotAllowed => !o.incentiveAllowed
              case CountryNotAllowed => o.countries != [] && d.country != "" && d.country !in o.countries
              case DeviceNotAllowed => o.devices != [] && d.device != "" && d.device !in o.devices
              case _ => false
  {
  }

  lemma InQuotaReasons(q: Quota, d: Delivery, r: Reason)
    ensures r in QuotaReasons(q, d) <==>
              match r
              case DailyCapReached => DayFull(q)
              case HourlyCapReached => HourFull(q)
              case CountryCapReached =>
                q.countryCap != map[] && d.country != "" && q.today >= CountryLimit(q, d.country)
              case _ => false
  {
    hide DayFull, HourFull, CountryLimit;
  }

  lemma CapsReached(q: Quota, country: string)
    ensures DayFull(q) <==> q.dailyCap.Some? && q.dailyCap.value <= q.today
    ensures HourFull(q) <==> q.hourlyCap.Some? && q.hourlyCap.value <= q.thisHour
    ensures CountryLimit(q, country) == if country in q.countryCap then q.countryCap[country] else 1000000000
  {
  }

  lemma InLimitReasons(desk: Desk, o: Offer, d: Delivery, user: nat, r: Reason)
    ensures r in LimitReasons(desk, o, d, user) <==>
              match r
              case AlreadyCompleted => !o.multipleAllowed && Count(desk.conversions, Completes(user, d.offer)) > 0
              case LifetimeLimitReached => Count(desk.conversions, Completes(user, d.offer)) >= o.lifetimeUserLimit
              case DailyLimitReached =>
                Count(desk.conversions, CompletesOn(user, d.offer, Day(d.evaluatedAt))) >= o.dailyUserLimit
              case _ => false
  {
    hide Count, Completes, CompletesOn, Day;
  }

  lemma ReasonsFound(desk: Desk, d: Delivery, user: nat, r: Reason)
    requires d.offer in desk.offers && r != OffersDisabled
    ensures var o, q := desk.offers[d.offer], QuotaOf(desk, d.offer);
            var reasons := OfferReasons(o, d) + QuotaReasons(q, d) + LimitReasons(desk, o, d, user);
            r in reasons <==> Holds(r, o, desk, d, user)
  {
    hide OfferReasons, QuotaReasons, LimitReasons, Count, Completes, CompletesOn, CountryLimit, Day, HourFull, DayFull;
    var o, q := desk.offers[d.offer], QuotaOf(desk, d.offer);
    CapsReached(q, d.country);
    CompletesAreCompleted(desk.conversions, user, d.offer, Day(d.evaluatedAt));
    InOfferReasons(o, d, r);
    InQuotaReasons(q, d, r);
    InLimitReasons(desk, o, d, user, r);
    assert |Completed(desk.conversions, user, d.offer)| > 0 <==> Completed(desk.conversions, user, d.offer) != {};
  }

  /** A user is eligible exactly when no reason holds and the risk is low; otherwise the reasons that
      are given are exactly those that hold, or just that offers are disabled. */
  lemma EligibleIff(desk: Desk, d: Delivery, user: nat)
    requires d.offer in desk.offers
    ensures var e, o := Evaluate(desk, d, user), desk.offers[d.offer];
            && (e == Eligible <==> d.riskScore < 51 && forall r: Reason :: !Holds(r, o, desk, d, user))
            && (e == RequiresReview <==> d.riskScore >= 51 && forall r: Reason :: !Holds(r, o, desk, d, user))
            && (e.NotEligible? ==>
                  if d.offersDisabled then e.reasons == [OffersDisabled]
                  else forall r :: r in e.reasons <==> Holds(r, o, desk, d, user))
  {
    hide OfferReasons, QuotaReasons, LimitReasons, Holds;
    var o, q := desk.offers[d.offer], QuotaOf(desk, d.offer);
    var reasons := OfferReasons(o, d) + QuotaReasons(q, d) + LimitReasons(desk, o, d, user);
    forall r | r != OffersDisabled ensures r in reasons <==> Holds(r, o, desk, d, user) {
      ReasonsFound(desk, d, user, r);
    }
    NoReasonOfDisabling(desk, o, q, d, user);
    assert reasons != [] ==> reasons[0] in reasons;
  }

  lemma NoReasonOfDisabling(desk: Desk, o: Offer, q: Quota, d: Delivery, user: nat)
    requires d.offer in desk.offers
    ensures OffersDisabled !in OfferReasons(o, d) + QuotaReasons(q, d) + LimitReasons(desk, o, d, user)
    ensures Holds(OffersDisabled, o, desk, d, user) <==> d.offersDisabled
  {
    InOfferReasons(o, d, OffersDisabled);
    InQuotaReasons(q, d, OffersDisabled);
    InLimitReasons(desk, o, d, user, OffersDisabled);
  }

  /** What the user is shown agrees with what is accepted: an eligible conversion is never announced
      as impossible, and one that can be completed is not refused for a limit that is shown. */
  lemma ShownLimitsAgree(desk: Desk, d: Delivery, user: nat)
    requires d.offer in desk.offers
    ensures var shown := LimitStatusOf(desk, d.offer, user, d.evaluatedAt).canComplete;
            var e := Evaluate(desk, d, user);
            && (e == Eligible ==> shown)
            && (shown && e.NotEligible? ==>
                  LifetimeLimitReached !in e.reasons && DailyLimitReached !in e.reasons
                      && DailyCapReached !in e.reasons)
    ensures var shown, o := LimitStatusOf(desk, d.offer, user, d.evaluatedAt), desk.offers[d.offer];
            var done := |Completed(desk.conversions, user, d.offer)|;
            var today := |CompletedOn(desk.conversions, user, d.offer, Day(d.evaluatedAt))|;
            && shown.lifetimeRemaining == (if done < o.lifetimeUserLimit then o.lifetimeUserLimit - done else 0)
            && shown.dailyRemaining == (if today < o.dailyUserLimit then o.dailyUserLimit - today else 0)
            && (shown.campaignRemaining.Some? <==> d.offer in desk.quotas && desk.quotas[d.offer].dailyCap.Some?)
            && (shown.campaignRemaining.Some? ==>
                  var q := desk.quotas[d.offer];
                  shown.campaignRemaining.value == if q.today < q.dailyCap.value then q.dailyCap.value - q.today else 0)
  {
    hide Evaluate, Count, Completes, CompletesOn, Day;
    var o := desk.offers[d.offer];
    EligibleIff(desk, d, user);
    CompletesAreCompleted(desk.conversions, user, d.offer, Day(d.evaluatedAt));
    assert Evaluate(desk, d, user) == Eligible ==>
        && !Holds(DailyCapReached, o, desk, d, user)
        && !Holds(LifetimeLimitReached, o, desk, d, user)
        && !Holds(DailyLimitReached, o, desk, d, user);
  }

  // ---------------------------------------------------------------- postbacks

  /** The offer desk together with the money tables that it awards into. */
  datatype Site = Site(desk: Desk, tables: Tables)

  datatype Outcome =
    | InvalidSignature | ParseError | Duplicate(conversion: nat) | UnknownUser
    | RejectedByProvider(conversion: nat) | Ineligible(conversion: nat) | Converted(conversion: nat)
    | Raised(failure: Failure)

  function FindConversion(conversions: seq<Conversion>, provider: nat, externalId: string): (i: int)
    ensures -1 <= i < |conversions|
    ensures i >= 0 ==> conversions[i].provider == provider && conversions[i].externalId == externalId
    ensures i < 0 ==> forall j | 0 <= j < |conversions| ::
              !(conversions[j].provider == provider && conversions[j].externalId == externalId)
  {
    if conversions == [] then -1
    else
      var i := FindConversion(conversions[..|conversions| - 1], provider, externalId);
      var last := conversions[|conversions| - 1];
      if i >= 0 then i
      else if last.provider == provider && last.externalId == externalId then |conversions| - 1
      else -1
  }

  /** Offerwall traffic names an offer that may not exist yet; it is provisioned with defaults. */
  function WithOffer(desk: Desk, d: Delivery): Desk {
    if d.offer in desk.offers then desk
    else desk.(offers := desk.offers[d.offer := Offer(Active, None, d.providerConsents, [], [], false, 1, 1)])
  }

  function AwardFor(d: Delivery, user: nat, conversion: nat): Award {
    Award(user, RewardMath.Source.Offer, ConversionRef(conversion), Some(d.payout), None, d.providerCode, "offer",
          d.country, "", None, USD, None, d.rate, d.createdAt)
  }

  function RejectedRow(d: Delivery, user: nat): Conversion {
    Conversion(d.provider, d.externalId, user, d.offer, Rejected, d.createdAt, 0, None, None, None)
  }

  function WithRow(desk: Desk, c: Conversion, now: int): Desk {
    desk.(conversions := desk.conversions + [c], clock := now)
  }

  /** The row of an approved conversion, its reward issued and its quota about to be bumped. */
  function ApprovedRow(desk: Desk, d: Delivery, user: nat, issued: Issued): Conversion {
    var cash := if issued.reward < |issued.tables.rewards| then issued.tables.rewards[issued.reward].cash else 0;
    var window := Refreshed(QuotaOf(desk, d.offer), d.countedAt).lastHour;
    Conversion(d.provider, d.externalId, user, d.offer, Approved, d.createdAt, cash, Some(issued.reward),
               Some(d.approvedAt), Some(Counted(d.countedAt, if window.Some? then window.value else d.countedAt)))
  }

  /** `process_postback`, with the reward rule that resolution finds. */
  function Deliver(s: Site, d: Delivery, found: Option<nat>): (Site, Outcome)
    requires found.Some? ==> found.value < |d.rules|
  {
    var n := |s.desk.conversions|;
    var known := FindConversion(s.desk.conversions, d.provider, d.externalId);
    if !d.signatureValid then (s, InvalidSignature)
    else if !d.parsed then (s, ParseError)
    else if known >= 0 then (s, Duplicate(known))
    else if d.user.None? then (s, UnknownUser)
    else
      var user, desk := d.user.value, WithOffer(s.desk, d);
      if !d.approved then
        (s.(desk := WithRow(desk, RejectedRow(d, user), d.createdAt)), RejectedByProvider(n))
      else if Evaluate(desk, d, user) != Eligible then
        (s.(desk := WithRow(desk, RejectedRow(d, user), d.createdAt)), Ineligible(n))
      else
        match AwardOutcome(s.tables, AwardFor(d, user, n), d.rules, found)
        case Err(e) => (s, Raised(e))
        case Ok(issued) =>
          var row := ApprovedRow(desk, d, user, issued);
          (Site(BumpQuota(WithRow(desk, row, d.countedAt), d.offer, d.countedAt), issued.tables), Converted(n))
  }

  // ---------------------------------------------------------------- runs

  datatype Event =
    | Postback(delivery: Delivery, found: Option<nat>)
    | QuotaTask(now: int)
    | Service(action: Action)

  ghost function SiteStep(s: Site, e: Event): Site {
    match e
    case Postback(d, found) =>
      if found.Some? && found.value >= |d.rules| then s else Deliver(s, d, found).0
    case QuotaTask(now) => s.(desk := Recalculate(s.desk, now))
    case Service(x) => s.(tables := Step(s.tables, x))
  }

  ghost function SiteRun(s: Site, es: seq<Event>): Site {
    if es == [] then s else SiteStep(SiteRun(s, es[..|es| - 1]), es[|es| - 1])
  }

  /** Clocks only move forward. */
  predicate Timely(s: Site, e: Event) {
    match e
    case Postback(d, _) => s.desk.clock <= d.evaluatedAt <= d.createdAt <= d.approvedAt <= d.countedAt
    case QuotaTask(now) => s.desk.clock <= now
    case Service(_) => true
  }

  /** Only `process_postback` awards for conversions. */
  predicate OwnClaims(e: Event) {
    e.Service? && e.action.DoIssue? ==> !e.action.issue.ref.ConversionRef?
  }

  ghost predicate ProperRun(s: Site, es: seq<Event>) {
    forall n | 0 <= n < |es| :: Timely(SiteRun(s, es[..n]), es[n]) && OwnClaims(es[n])
  }

  /** A site on which nothing was converted yet; the caps and limits are arbitrary. */
  predicate Untouched(s: Site) {
    && s.desk.conversions == []
    && (forall o | o in s.desk.quotas :: s.desk.quotas[o].lastHour == None && s.desk.quotas[o].lastDay == None)
    && (forall i | 0 <= i < |s.tables.rewards| :: !s.tables.rewards[i].ref.ConversionRef?)
  }
}
