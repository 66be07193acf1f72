/** What every run of postbacks and quota tasks keeps: campaign caps, user limits, and one
    conversion and one reward per external conversion id. */
module OfferRuns {
  import opened Calendar
  import opened Outcomes
  import RewardMath
  import opened Sums
  import opened MoneyTables
  import opened Lifecycles
  import opened Platforms
  import opened Offers

  // ---------------------------------------------------------------- campaign caps

  function CountedOnDay(offer: nat, day: int): Conversion -> bool {
    (c: Conversion) => c.offer == offer && c.counted.Some? && Day(c.counted.value.at) == day
  }

  function CountedInWindow(offer: nat, window: int): Conversion -> bool {
    (c: Conversion) => c.offer == offer && c.counted.Some? && c.counted.value.window == window
  }

  function CountedWithinHour(offer: nat, from: int): Conversion -> bool {
    (c: Conversion) => c.offer == offer && c.counted.Some? && from <= c.counted.value.at < from + MICROS_PER_HOUR
  }

  predicate CountedFor(c: Conversion, offer: nat) {
    c.offer == offer && c.counted.Some?
  }

  /** The day counter is the number of conversions counted on the day of its last reset, and no
      day ever exceeded the cap. */
  ghost predicate DayOk(cs: seq<Conversion>, q: Quota, offer: nat, clock: int) {
    && (forall i | 0 <= i < |cs| && CountedFor(cs[i], offer) ::
          q.lastDay.Some? && Day(cs[i].counted.value.at) <= Day(q.lastDay.value))
    && (q.lastDay.Some? ==>
          q.lastDay.value <= clock && q.today == Count(cs, CountedOnDay(offer, Day(q.lastDay.value))))
    && (q.dailyCap.Some? ==> forall day :: Count(cs, CountedOnDay(offer, day)) <= q.dailyCap.value)
  }

  /** An earlier window began at least an hour before a later one, and was over by then. */
  predicate WindowsApart(c: Counted, d: Counted) {
    c.window < d.window ==> c.window + MICROS_PER_HOUR <= d.window && c.at <= d.window
  }

  /** The hour counter is the number of conversions in the current window; windows are apart; no
      window ever exceeded the cap. */
  ghost predicate HourOk(cs: seq<Conversion>, q: Quota, offer: nat, clock: int) {
    && (forall i | 0 <= i < |cs| && CountedFor(cs[i], offer) ::
          && q.lastHour.Some?
          && cs[i].counted.value.window <= cs[i].counted.value.at <= clock
          && cs[i].counted.value.window <= q.lastHour.value
          && WindowsApart(cs[i].counted.value, Counted(clock, q.lastHour.value)))
    && (forall i, j | 0 <= i < |cs| && 0 <= j < |cs| && CountedFor(cs[i], offer) && CountedFor(cs[j], offer) ::
          WindowsApart(cs[i].counted.value, cs[j].counted.value))
    && (q.lastHour.Some? ==>
          q.lastHour.value <= clock && q.thisHour == Count(cs, CountedInWindow(offer, q.lastHour.value)))
    && (q.hourlyCap.Some? ==> forall w :: Count(cs, CountedInWindow(offer, w)) <= q.hourlyCap.value)
  }

  lemma RefreshKeepsDay(cs: seq<Conversion>, q: Quota, offer: nat, clock: int, now: int)
    requires DayOk(cs, q, offer, clock) && clock <= now
    ensures DayOk(cs, Refreshed(q, now), offer, now)
  {
    if q.lastDay.None? || Day(q.lastDay.value) != Day(now) {
      CountNone(cs, CountedOnDay(offer, Day(now)));
    }
  }

  lemma RefreshKeepsHour(cs: seq<Conversion>, q: Quota, offer: nat, clock: int, now: int)
    requires HourOk(cs, q, offer, clock) && clock <= now
    ensures HourOk(cs, Refreshed(q, now), offer, now)
  {
    if q.lastHour.None? || now - q.lastHour.value >= MICROS_PER_HOUR {
      CountNone(cs, CountedInWindow(offer, now));
    }
  }

  lemma BumpKeepsDay(cs: seq<Conversion>, q: Quota, offer: nat, clock: int, now: int, c: Conversion)
    requires DayOk(cs, q, offer, clock) && clock <= now && !DayFull(q)
    requires CountedFor(c, offer) && c.counted.value.at == now
    ensures DayOk(cs + [c], Bumped(q, now), offer, now)
  {
    hide Count, Day, HourDue;
    var r := Refreshed(q, now);
    RefreshKeepsDay(cs, q, offer, clock, now);
    assert Day(r.lastDay.value) == Day(now);
    forall day ensures Count(cs + [c], CountedOnDay(offer, day))
        == Count(cs, CountedOnDay(offer, day)) + (if day == Day(now) then 1 else 0) {
      CountAppend(cs, c, CountedOnDay(offer, day));
    }
  }

  lemma BumpKeepsHour(cs: seq<Conversion>, q: Quota, offer: nat, clock: int, now: int, c: Conversion)
    requires HourOk(cs, q, offer, clock) && clock <= now && !HourFull(q)
    requires CountedFor(c, offer) && c.counted == Some(Counted(now, Refreshed(q, now).lastHour.value))
    ensures HourOk(cs + [c], Bumped(q, now), offer, now)
  {
    var r := Refreshed(q, now);
    var w := r.lastHour.value;
    RefreshKeepsHour(cs, q, offer, clock, now);
    forall v
      ensures Count(cs + [c], CountedInWindow(offer, v))
          == Count(cs, CountedInWindow(offer, v)) + (if v == w then 1 else 0)
    {
      CountAppend(cs, c, CountedInWindow(offer, v));
    }
    forall i, j | 0 <= i < |cs + [c]| && 0 <= j < |cs + [c]| && CountedFor((cs + [c])[i], offer)
        && CountedFor((cs + [c])[j], offer)
      ensures WindowsApart((cs + [c])[i].counted.value, (cs + [c])[j].counted.value)
    {
      if j == |cs| && i < |cs| {
        assert WindowsApart(cs[i].counted.value, Counted(now, w));
      }
    }
  }

  /** Conversions that are not counted for the offer do not matter to its quota. */
  lemma OtherConversionKeeps(cs: seq<Conversion>, q: Quota, offer: nat, clock: int, c: Conversion)
    requires DayOk(cs, q, offer, clock) && HourOk(cs, q, offer, clock) && !CountedFor(c, offer)
    ensures DayOk(cs + [c], q, offer, clock) && HourOk(cs + [c], q, offer, clock)
  {
    forall day ensures Count(cs + [c], CountedOnDay(offer, day)) == Count(cs, CountedOnDay(offer, day)) {
      CountAppend(cs, c, CountedOnDay(offer, day));
    }
    forall w ensures Count(cs + [c], CountedInWindow(offer, w)) == Count(cs, CountedInWindow(offer, w)) {
      CountAppend(cs, c, CountedInWindow(offer, w));
    }
    assert forall i | 0 <= i < |cs + [c]| && CountedFor((cs + [c])[i], offer) :: i < |cs| && (cs + [c])[i] == cs[i];
  }

  lemma LaterClockKeeps(cs: seq<Conversion>, q: Quota, offer: nat, clock: int, now: int)
    requires DayOk(cs, q, offer, clock) && HourOk(cs, q, offer, clock) && clock <= now
    ensures DayOk(cs, q, offer, now) && HourOk(cs, q, offer, now)
  {
  }

  ghost predicate QuotaOk(desk: Desk, offer: nat) {
    DayOk(desk.conversions, QuotaOf(desk, offer), offer, desk.clock)
    && HourOk(desk.conversions, QuotaOf(desk, offer), offer, desk.clock)
  }

  ghost predicate QuotasOk(desk: Desk) {
    forall offer: nat {:trigger QuotaOk(desk, offer)} :: QuotaOk(desk, offer)
  }

  lemma RejectionKeepsQuotas(desk: Desk, after: Desk, c: Conversion, now: int)
    requires QuotasOk(desk) && desk.clock <= now && c.counted.None?
    requires after.conversions == desk.conversions + [c] && after.clock == now && after.quotas == desk.quotas
    ensures QuotasOk(after)
  {
    forall offer: nat ensures QuotaOk(after, offer) {
      assert QuotaOk(desk, offer);
      OtherConversionKeeps(desk.conversions, QuotaOf(desk, offer), offer, desk.clock, c);
      LaterClockKeeps(after.conversions, QuotaOf(desk, offer), offer, desk.clock, now);
    }
  }

  lemma ApprovalKeepsQuotas(desk: Desk, d: Delivery, c: Conversion, now: int)
    requires QuotasOk(desk) && desk.clock <= now && d.offer in desk.offers
    requires !DayFull(QuotaOf(desk, d.offer)) && !HourFull(QuotaOf(desk, d.offer))
    requires c.offer == d.offer
        && c.counted == Some(Counted(now, Refreshed(QuotaOf(desk, d.offer), now).lastHour.value))
    ensures QuotasOk(BumpQuota(WithRow(desk, c, now), d.offer, now))
  {
    var after := BumpQuota(WithRow(desk, c, now), d.offer, now);
    forall offer: nat ensures QuotaOk(after, offer) {
      assert QuotaOk(desk, offer);
      var q := QuotaOf(desk, offer);
      if offer == d.offer {
        BumpKeepsDay(desk.conversions, q, offer, desk.clock, now, c);
        BumpKeepsHour(desk.conversions, q, offer, desk.clock, now, c);
      } else {
        OtherConversionKeeps(desk.conversions, q, offer, desk.clock, c);
        LaterClockKeeps(after.conversions, q, offer, desk.clock, now);
      }
    }
  }

  lemma TaskKeepsQuotas(desk: Desk, now: int)
    requires QuotasOk(desk) && desk.clock <= now
    ensures QuotasOk(Recalculate(desk, now))
  {
    forall offer: nat ensures QuotaOk(Recalculate(desk, now), offer) {
      assert QuotaOk(desk, offer);
      var q := QuotaOf(desk, offer);
      if offer in desk.quotas {
        RefreshKeepsDay(desk.conversions, q, offer, desk.clock, now);
        RefreshKeepsHour(desk.conversions, q, offer, desk.clock, now);
      } else {
        LaterClockKeeps(desk.conversions, q, offer, desk.clock, now);
      }
    }
  }

  /** Eligible means, among the rest, that neither cap was reached. */
  lemma EligibleWithinCaps(desk: Desk, d: Delivery, user: nat)
    requires d.offer in desk.offers && Evaluate(desk, d, user) == Eligible
    ensures !DayFull(QuotaOf(desk, d.offer)) && !HourFull(QuotaOf(desk, d.offer))
  {
  }

  lemma StepKeepsQuotas(s: Site, e: Event)
    requires QuotasOk(s.desk) && Timely(s, e)
    ensures QuotasOk(SiteStep(s, e).desk)
  {
    match e
    case Postback(d, found) =>
      if !(found.Some? && found.value >= |d.rules|) && d.user.Some? {
        var user, desk := d.user.value, WithOffer(s.desk, d);
        assert forall offer: nat {:trigger QuotaOk(desk, offer)} :: QuotaOk(s.desk, offer) ==> QuotaOk(desk, offer);
        var outcome := Deliver(s, d, found).1;
        if outcome.RejectedByProvider? || outcome.Ineligible? {
          RejectionKeepsQuotas(desk, SiteStep(s, e).desk, RejectedRow(d, user), d.createdAt);
        } else if outcome.Converted? {
          EligibleWithinCaps(desk, d, user);
          var issued := AwardOutcome(s.tables, AwardFor(d, user, |s.desk.conversions|), d.rules, found).value;
          ApprovalKeepsQuotas(desk, d, ApprovedRow(desk, d, user, issued), d.countedAt);
        }
      }
    case QuotaTask(now) => TaskKeepsQuotas(s.desk, now);
    case Service(_) =>
  }

  lemma ProperPrefix(s: Site, es: seq<Event>, n: nat)
    requires ProperRun(s, es) && n <= |es|
    ensures ProperRun(s, es[..n])
  {
    forall m | 0 <= m < n ensures Timely(SiteRun(s, es[..n][..m]), es[..n][m]) && OwnClaims(es[..n][m]) {
      assert es[..n][..m] == es[..m];
    }
  }

  lemma {:induction false} RunKeepsQuotas(s: Site, es: seq<Event>)
    requires Untouched(s) && ProperRun(s, es)
    ensures QuotasOk(SiteRun(s, es).desk)
  {
    if es == [] {
      forall offer: nat ensures QuotaOk(s.desk, offer) {
      }
    } else {
      var n := |es| - 1;
      ProperPrefix(s, es, n);
      RunKeepsQuotas(s, es[..n]);
      StepKeepsQuotas(SiteRun(s, es[..n]), es[n]);
    }
  }

  /** The configured caps and limits never change. */
  ghost predicate SameConfiguration(s: Desk, u: Desk) {
    && (forall o | o in s.quotas :: o in u.quotas
          && u.quotas[o].dailyCap == s.quotas[o].dailyCap && u.quotas[o].hourlyCap == s.quotas[o].hourlyCap)
    && (forall o | o in s.offers :: o in u.offers && u.offers[o] == s.offers[o].(status := u.offers[o].status))
  }

  lemma {:induction false} RunKeepsConfiguration(s: Site, es: seq<Event>)
    ensures SameConfiguration(s.desk, SiteRun(s, es).desk)
  {
    if es != [] {
      RunKeepsConfiguration(s, es[..|es| - 1]);
      StepKeepsConfiguration(SiteRun(s, es[..|es| - 1]), es[|es| - 1]);
    }
  }

  lemma BumpKeepsConfiguration(desk: Desk, offer: nat, now: int)
    requires offer in desk.offers
    ensures SameConfiguration(desk, BumpQuota(desk, offer, now))
  {
  }

  lemma DeliveryKeepsConfiguration(s: Site, d: Delivery, found: Option<nat>)
    requires found.Some? ==> found.value < |d.rules|
    ensures SameConfiguration(s.desk, Deliver(s, d, found).0.desk)
  {
    hide Evaluate, FindConversion, AwardOutcome, BumpQuota, ApprovedRow;
    var desk, after := WithOffer(s.desk, d), Deliver(s, d, found);
    assert SameConfiguration(s.desk, desk);
    if after.1.Converted? {
      var issued := AwardOutcome(s.tables, AwardFor(d, d.user.value, |s.desk.conversions|), d.rules, found).value;
      var row := ApprovedRow(desk, d, d.user.value, issued);
      BumpKeepsConfiguration(WithRow(desk, row, d.countedAt), d.offer, d.countedAt);
    }
  }

  lemma StepKeepsConfiguration(s: Site, e: Event)
    ensures SameConfiguration(s.desk, SiteStep(s, e).desk)
  {
    if e.Postback? && (e.found.Some? ==> e.found.value < |e.delivery.rules|) {
      DeliveryKeepsConfiguration(s, e.delivery, e.found);
    }
  }

  /** On every run, at most `daily_global_cap` conversions of an offer are counted on any UTC day. */
  lemma DailyCapHolds(s: Site, es: seq<Event>, offer: nat, cap: nat, day: int)
    requires Untouched(s) && ProperRun(s, es)
    requires offer in s.desk.quotas && s.desk.quotas[offer].dailyCap == Some(cap)
    ensures Count(SiteRun(s, es).desk.conversions, CountedOnDay(offer, day)) <= cap
  {
    RunKeepsQuotas(s, es);
    RunKeepsConfiguration(s, es);
    assert QuotaOk(SiteRun(s, es).desk, offer);
  }

  /** On every run, at most twice `hourly_cap` conversions of an offer are counted within any
      half-open interval of 3600 seconds. */
  lemma HourlyCapHolds(s: Site, es: seq<Event>, offer: nat, cap: nat, from: int)
    requires Untouched(s) && ProperRun(s, es)
    requires offer in s.desk.quotas && s.desk.quotas[offer].hourlyCap == Some(cap)
    ensures Count(SiteRun(s, es).desk.conversions, CountedWithinHour(offer, from)) <= 2 * cap
  {
    RunKeepsQuotas(s, es);
    RunKeepsConfiguration(s, es);
    var desk := SiteRun(s, es).desk;
    assert QuotaOk(desk, offer);
    WindowsCoverHour(desk.conversions, QuotaOf(desk, offer), offer, desk.clock, from);
  }

  lemma WindowsCoverHour(cs: seq<Conversion>, q: Quota, offer: nat, clock: int, from: int)
    requires HourOk(cs, q, offer, clock) && q.hourlyCap.Some?
    ensures Count(cs, CountedWithinHour(offer, from)) <= 2 * q.hourlyCap.value
  {
    var within := CountedWithinHour(offer, from);
    if forall i | 0 <= i < |cs| :: !within(cs[i]) {
      CountNone(cs, within);
    } else {
      var i :| 0 <= i < |cs| && within(cs[i]);
      var first := EarliestWindow(cs, within, i);
      var w := cs[first].counted.value.window;
      if j :| 0 <= j < |cs| && within(cs[j]) && cs[j].counted.value.window != w {
        var v := cs[j].counted.value.window;
        forall k | 0 <= k < |cs| && within(cs[k])
          ensures CountedInWindow(offer, w)(cs[k]) || CountedInWindow(offer, v)(cs[k])
        {
          OnlyTwoWindows(cs[first].counted.value, cs[j].counted.value, cs[k].counted.value, from);
        }
        CountCovered(cs, within, CountedInWindow(offer, w), CountedInWindow(offer, v));
      } else {
        CountImplies(cs, within, CountedInWindow(offer, w));
      }
    }
  }

  lemma OnlyTwoWindows(first: Counted, c: Counted, d: Counted, from: int)
    requires WindowsApart(first, c) && WindowsApart(first, d) && WindowsApart(c, d) && WindowsApart(d, c)
    requires first.window < c.window && first.window <= d.window
    requires from <= first.at && c.window <= c.at < from + MICROS_PER_HOUR && d.window <= d.at < from + MICROS_PER_HOUR
    ensures d.window == first.window || d.window == c.window
  {
  }

  lemma EarliestWindow(cs: seq<Conversion>, p: Conversion -> bool, i: nat) returns (first: nat)
    requires i < |cs| && p(cs[i])
    requires forall k | 0 <= k < |cs| && p(cs[k]) :: cs[k].counted.Some?
    ensures first < |cs| && p(cs[first])
    ensures forall k | 0 <= k < |cs| && p(cs[k]) :: cs[first].counted.value.window <= cs[k].counted.value.window
  {
    first := i;
    for n := 0 to |cs|
      invariant first < |cs| && p(cs[first])
      invariant forall k | 0 <= k < n && p(cs[k]) :: cs[first].counted.value.window <= cs[k].counted.value.window
    {
      if p(cs[n]) && cs[n].counted.value.window < cs[first].counted.value.window {
        first := n;
      }
    }
  }

  // ---------------------------------------------------------------- campaign caps by the time of approval

  function ApprovedOnDay(offer: nat, day: int): Conversion -> bool {
    (c: Conversion) => c.offer == offer && c.approvedAt.Some? && Day(c.approvedAt.value) == day
  }

  function ApprovedWithinHour(offer: nat, from: int): Conversion -> bool {
    (c: Conversion) =>
      c.offer == offer && c.approvedAt.Some? && from <= c.approvedAt.value < from + MICROS_PER_HOUR
  }

  /** What is approved is counted, not before its approval. */
  predicate ApprovedThenCounted(c: Conversion) {
    c.approvedAt.Some? ==> c.counted.Some? && c.approvedAt.value <= c.counted.value.at
  }

  ghost predicate ApprovalsWithinCaps(cs: seq<Conversion>, q: Quota, offer: nat) {
    && (forall i | 0 <= i < |cs| :: ApprovedThenCounted(cs[i]))
    && (q.dailyCap.Some? ==> forall day :: Count(cs, ApprovedOnDay(offer, day)) <= q.dailyCap.value)
    && (q.hourlyCap.Some? ==> forall from :: Count(cs, ApprovedWithinHour(offer, from)) <= 2 * q.hourlyCap.value)
  }

  /** While the day is not full, fewer conversions than the cap were approved on the day of the clock
      or on a later one. */
  lemma ApprovedTodayBelowCap(cs: seq<Conversion>, q: Quota, offer: nat, clock: int, day: int)
    requires DayOk(cs, q, offer, clock) && HourOk(cs, q, offer, clock)
    requires forall i | 0 <= i < |cs| :: ApprovedThenCounted(cs[i])
    requires q.dailyCap.Some? && !DayFull(q) && Day(clock) <= day
    ensures Count(cs, ApprovedOnDay(offer, day)) < q.dailyCap.value
  {
    forall i | 0 <= i < |cs| && ApprovedOnDay(offer, day)(cs[i]) ensures CountedOnDay(offer, day)(cs[i]) {
      assert CountedFor(cs[i], offer) && ApprovedThenCounted(cs[i]);
    }
    CountImplies(cs, ApprovedOnDay(offer, day), CountedOnDay(offer, day));
    if q.lastDay.None? || Day(q.lastDay.value) != day {
      CountNone(cs, CountedOnDay(offer, day));
    }
  }

  /** While the hour is not full, an interval that reaches beyond the clock has room for one more. */
  lemma ApprovedThisHourBelowCap(cs: seq<Conversion>, q: Quota, offer: nat, clock: int, from: int)
    requires HourOk(cs, q, offer, clock)
    requires forall i | 0 <= i < |cs| :: ApprovedThenCounted(cs[i])
    requires q.hourlyCap.Some? && !HourFull(q) && clock < from + MICROS_PER_HOUR
    ensures Count(cs, ApprovedWithinHour(offer, from)) < 2 * q.hourlyCap.value
  {
    var within := CountedWithinHour(offer, from);
    forall i | 0 <= i < |cs| && ApprovedWithinHour(offer, from)(cs[i]) ensures within(cs[i]) {
      assert CountedFor(cs[i], offer) && ApprovedThenCounted(cs[i]);
    }
    CountImplies(cs, ApprovedWithinHour(offer, from), within);
    if forall i | 0 <= i < |cs| :: !within(cs[i]) {
      CountNone(cs, within);
    } else {
      var i :| 0 <= i < |cs| && within(cs[i]);
      var first := EarliestWindow(cs, within, i);
      var w, v := cs[first].counted.value.window, q.lastHour.value;
      forall k | 0 <= k < |cs| && within(cs[k])
        ensures CountedInWindow(offer, w)(cs[k]) || CountedInWindow(offer, v)(cs[k])
      {
        assert CountedFor(cs[k], offer) && CountedFor(cs[first], offer);
        OnlyFirstAndCurrent(cs[first].counted.value, cs[k].counted.value, Counted(clock, v), from);
      }
      if w == v {
        CountImplies(cs, within, CountedInWindow(offer, v));
      } else {
        CountCovered(cs, within, CountedInWindow(offer, w), CountedInWindow(offer, v));
      }
    }
  }

  lemma OnlyFirstAndCurrent(first: Counted, c: Counted, current: Counted, from: int)
    requires WindowsApart(first, c) && WindowsApart(c, current)
    requires first.window <= c.window <= current.window <= current.at < from + MICROS_PER_HOUR
    requires from <= first.at
    ensures c.window == first.window || c.window == current.window
  {
  }

  lemma ApprovalKeepsApprovals(cs: seq<Conversion>, q: Quota, offer: nat, clock: int, c: Conversion, after: Quota)
    requires DayOk(cs, q, offer, clock) && HourOk(cs, q, offer, clock) && ApprovalsWithinCaps(cs, q, offer)
    requires !DayFull(q) && !HourFull(q) && ApprovedThenCounted(c)
    requires c.approvedAt.Some? && clock <= c.approvedAt.value
    requires after.dailyCap == q.dailyCap && after.hourlyCap == q.hourlyCap
    ensures ApprovalsWithinCaps(cs + [c], after, offer)
  {
    if q.dailyCap.Some? {
      forall day ensures Count(cs + [c], ApprovedOnDay(offer, day)) <= q.dailyCap.value {
        CountAppend(cs, c, ApprovedOnDay(offer, day));
        if Day(c.approvedAt.value) == day {
          ApprovedTodayBelowCap(cs, q, offer, clock, day);
        }
      }
    }
    if q.hourlyCap.Some? {
      forall from ensures Count(cs + [c], ApprovedWithinHour(offer, from)) <= 2 * q.hourlyCap.value {
        CountAppend(cs, c, ApprovedWithinHour(offer, from));
        if from <= c.approvedAt.value < from + MICROS_PER_HOUR {
          ApprovedThisHourBelowCap(cs, q, offer, clock, from);
        }
      }
    }
  }

  lemma OtherConversionKeepsApprovals(cs: seq<Conversion>, q: Quota, offer: nat, c: Conversion)
    requires ApprovalsWithinCaps(cs, q, offer) && ApprovedThenCounted(c)
    requires c.offer != offer || c.approvedAt.None?
    ensures ApprovalsWithinCaps(cs + [c], q, offer)
  {
    forall day ensures Count(cs + [c], ApprovedOnDay(offer, day)) == Count(cs, ApprovedOnDay(offer, day)) {
      CountAppend(cs, c, ApprovedOnDay(offer, day));
    }
    forall from
      ensures Count(cs + [c], ApprovedWithinHour(offer, from)) == Count(cs, ApprovedWithinHour(offer, from))
    {
      CountAppend(cs, c, ApprovedWithinHour(offer, from));
    }
  }

  lemma StepKeepsApprovals(s: Site, e: Event, offer: nat)
    requires QuotasOk(s.desk) && Timely(s, e)
    requires ApprovalsWithinCaps(s.desk.conversions, QuotaOf(s.desk, offer), offer)
    ensures var u := SiteStep(s, e).desk; ApprovalsWithinCaps(u.conversions, QuotaOf(u, offer), offer)
  {
    hide DayOk, HourOk, ApprovalsWithinCaps, AwardOutcome, Evaluate, FindConversion;
    match e
    case Postback(d, found) =>
      if !(found.Some? && found.value >= |d.rules|) && d.user.Some? {
        var user, desk, q := d.user.value, WithOffer(s.desk, d), QuotaOf(s.desk, offer);
        var outcome := Deliver(s, d, found).1;
        if outcome.RejectedByProvider? || outcome.Ineligible? {
          OtherConversionKeepsApprovals(desk.conversions, q, offer, RejectedRow(d, user));
        } else if outcome.Converted? {
          var issued := AwardOutcome(s.tables, AwardFor(d, user, |s.desk.conversions|), d.rules, found).value;
          var row := ApprovedRow(desk, d, user, issued);
          if offer == d.offer {
            EligibleWithinCaps(desk, d, user);
            assert QuotaOk(s.desk, offer);
            ApprovalKeepsApprovals(desk.conversions, q, offer, s.desk.clock, row, Bumped(q, d.countedAt));
          } else {
            OtherConversionKeepsApprovals(desk.conversions, q, offer, row);
          }
        }
      }
    case QuotaTask(now) =>
      var after := Recalculate(s.desk, now);
      SameCapsKeepApprovals(s.desk.conversions, QuotaOf(s.desk, offer), QuotaOf(after, offer), offer);
    case Service(_) =>
  }

  lemma SameCapsKeepApprovals(cs: seq<Conversion>, q: Quota, after: Quota, offer: nat)
    requires ApprovalsWithinCaps(cs, q, offer) && after.dailyCap == q.dailyCap && after.hourlyCap == q.hourlyCap
    ensures ApprovalsWithinCaps(cs, after, offer)
  {
  }

  lemma {:induction false} RunKeepsApprovals(s: Site, es: seq<Event>, offer: nat)
    requires Untouched(s) && ProperRun(s, es)
    ensures var u := SiteRun(s, es).desk; ApprovalsWithinCaps(u.conversions, QuotaOf(u, offer), offer)
  {
    if es != [] {
      var n := |es| - 1;
      ProperPrefix(s, es, n);
      RunKeepsQuotas(s, es[..n]);
      RunKeepsApprovals(s, es[..n], offer);
      StepKeepsApprovals(SiteRun(s, es[..n]), es[n], offer);
    }
  }

  /** The caps bound the approvals as well, by the time that the conversion rows record, although the
      counters follow the later clock of the quota. */
  lemma CapsBoundApprovals(s: Site, es: seq<Event>, offer: nat, day: int, from: int)
    requires Untouched(s) && ProperRun(s, es) && offer in s.desk.quotas
    ensures var q, cs := s.desk.quotas[offer], SiteRun(s, es).desk.conversions;
            && (q.dailyCap.Some? ==> Count(cs, ApprovedOnDay(offer, day)) <= q.dailyCap.value)
            && (q.hourlyCap.Some? ==> Count(cs, ApprovedWithinHour(offer, from)) <= 2 * q.hourlyCap.value)
  {
    RunKeepsApprovals(s, es, offer);
    RunKeepsConfiguration(s, es);
  }

  // ---------------------------------------------------------------- user limits

  ghost predicate UserOk(desk: Desk, user: nat, offer: nat) {
    var total := Count(desk.conversions, Completes(user, offer));
    && (offer !in desk.offers ==> total == 0)
    && (offer in desk.offers ==>
          && total <= desk.offers[offer].lifetimeUserLimit
          && (!desk.offers[offer].multipleAllowed ==> total <= 1)
          && forall day :: Count(desk.conversions, CompletesOn(user, offer, day)) <= desk.offers[offer].dailyUserLimit)
  }

  ghost predicate UsersOk(desk: Desk) {
    && (forall i | 0 <= i < |desk.conversions| :: desk.conversions[i].createdAt <= desk.clock)
    && (forall user: nat, offer: nat {:trigger UserOk(desk, user, offer)} :: UserOk(desk, user, offer))
  }

  /** An accepted conversion leaves its user within the limits of the offer, whichever of the two
      days around midnight it is booked on. */
  lemma AcceptedWithinLimits(desk: Desk, d: Delivery, user: nat, c: Conversion)
    requires UsersOk(desk) && d.offer in desk.offers && Evaluate(desk, d, user) == Eligible
    requires desk.clock <= d.evaluatedAt <= d.createdAt
    requires c.user == user && c.offer == d.offer && c.createdAt == d.createdAt && c.status == Approved
    ensures var o := desk.offers[d.offer]; var cs := desk.conversions + [c];
            && Count(cs, Completes(user, d.offer)) <= o.lifetimeUserLimit
            && (!o.multipleAllowed ==> Count(cs, Completes(user, d.offer)) <= 1)
            && forall day :: Count(cs, CompletesOn(user, d.offer, day)) <= o.dailyUserLimit
  {
    var o := desk.offers[d.offer];
    var cs := desk.conversions;
    assert LimitReasons(desk, o, d, user) == [];
    assert UserOk(desk, user, d.offer);
    CountAppend(cs, c, Completes(user, d.offer));
    forall day ensures Count(cs + [c], CompletesOn(user, d.offer, day)) <= o.dailyUserLimit {
      CountAppend(cs, c, CompletesOn(user, d.offer, day));
      if day == Day(d.createdAt) && day != Day(d.evaluatedAt) {
        CountNone(cs, CompletesOn(user, d.offer, day));
      }
    }
  }

  lemma OtherRowKeepsUser(cs: seq<Conversion>, c: Conversion, user: nat, offer: nat)
    requires c.user != user || c.offer != offer || c.status == Rejected
    ensures Count(cs + [c], Completes(user, offer)) == Count(cs, Completes(user, offer))
    ensures forall day :: Count(cs + [c], CompletesOn(user, offer, day)) == Count(cs, CompletesOn(user, offer, day))
  {
    CountAppend(cs, c, Completes(user, offer));
    forall day ensures Count(cs + [c], CompletesOn(user, offer, day)) == Count(cs, CompletesOn(user, offer, day)) {
      CountAppend(cs, c, CompletesOn(user, offer, day));
    }
  }

  lemma RowKeepsUsers(desk: Desk, after: Desk, d: Delivery, user: nat, c: Conversion, now: int)
    requires UsersOk(desk) && desk.clock <= d.evaluatedAt <= d.createdAt <= now
    requires c.user == user && c.offer == d.offer && c.createdAt == d.createdAt
    requires c.status == Rejected || (d.offer in desk.offers && Evaluate(desk, d, user) == Eligible)
    requires after.conversions == desk.conversions + [c] && after.clock == now
    requires after.offers.Keys == desk.offers.Keys
    requires forall o | o in desk.offers :: after.offers[o] == desk.offers[o].(status := after.offers[o].status)
    ensures UsersOk(after)
  {
    forall u: nat, o: nat ensures UserOk(after, u, o) {
      assert UserOk(desk, u, o);
      if u == user && o == d.offer && c.status != Rejected {
        AcceptedWithinLimits(desk, d, user, c);
      } else {
        OtherRowKeepsUser(desk.conversions, c, u, o);
      }
    }
  }

  lemma ProvisionedOfferKeepsUsers(desk: Desk, d: Delivery)
    requires UsersOk(desk)
    ensures UsersOk(WithOffer(desk, d))
  {
    var after := WithOffer(desk, d);
    forall u: nat, o: nat ensures UserOk(after, u, o) {
      assert UserOk(desk, u, o);
      if o !in desk.offers {
        forall day ensures Count(desk.conversions, CompletesOn(u, o, day)) == 0 {
          CountImplies(desk.conversions, CompletesOn(u, o, day), Completes(u, o));
        }
      }
    }
  }

  lemma DeliveryKeepsUsers(s: Site, d: Delivery, found: Option<nat>)
    requires UsersOk(s.desk) && s.desk.clock <= d.evaluatedAt <= d.createdAt <= d.countedAt
    requires found.Some? ==> found.value < |d.rules|
    ensures UsersOk(Deliver(s, d, found).0.desk)
  {
    hide Evaluate, FindConversion, UsersOk, AwardOutcome;
    if d.user.Some? {
      var user, desk := d.user.value, WithOffer(s.desk, d);
      ProvisionedOfferKeepsUsers(s.desk, d);
      var after, outcome := Deliver(s, d, found).0.desk, Deliver(s, d, found).1;
      if outcome.RejectedByProvider? || outcome.Ineligible? {
        RowKeepsUsers(desk, after, d, user, RejectedRow(d, user), d.createdAt);
      } else if outcome.Converted? {
        var issued := AwardOutcome(s.tables, AwardFor(d, user, |s.desk.conversions|), d.rules, found).value;
        RowKeepsUsers(desk, after, d, user, ApprovedRow(desk, d, user, issued), d.countedAt);
      }
    }
  }

  lemma TaskKeepsUsers(desk: Desk, now: int)
    requires UsersOk(desk) && desk.clock <= now
    ensures UsersOk(Recalculate(desk, now))
  {
    forall u: nat, o: nat ensures UserOk(Recalculate(desk, now), u, o) {
      assert UserOk(desk, u, o);
    }
  }

  lemma StepKeepsUsers(s: Site, e: Event)
    requires UsersOk(s.desk) && Timely(s, e)
    ensures UsersOk(SiteStep(s, e).desk)
  {
    match e
    case Postback(d, found) =>
      if found.Some? ==> found.value < |d.rules| {
        DeliveryKeepsUsers(s, d, found);
      }
    case QuotaTask(now) => TaskKeepsUsers(s.desk, now);
    case Service(_) =>
  }

  lemma {:induction false} RunKeepsUsers(s: Site, es: seq<Event>)
    requires Untouched(s) && ProperRun(s, es)
    ensures UsersOk(SiteRun(s, es).desk)
  {
    if es == [] {
      forall u: nat, o: nat ensures UserOk(s.desk, u, o) {
      }
    } else {
      var n := |es| - 1;
      ProperPrefix(s, es, n);
      RunKeepsUsers(s, es[..n]);
      StepKeepsUsers(SiteRun(s, es[..n]), es[n]);
    }
  }

  /** On every run, a user's conversions of an offer that were not rejected stay within the lifetime
      limit, within the daily limit on every day, and below two where repeating is not allowed; also
      for offers that postbacks create during the run.  The limits are those from the start. */
  lemma UserLimitsHold(s: Site, es: seq<Event>, user: nat, offer: nat, day: int)
    requires Untouched(s) && ProperRun(s, es) && offer in SiteRun(s, es).desk.offers
    ensures var o, cs := SiteRun(s, es).desk.offers[offer], SiteRun(s, es).desk.conversions;
            && Count(cs, Completes(user, offer)) <= o.lifetimeUserLimit
            && Count(cs, CompletesOn(user, offer, day)) <= o.dailyUserLimit
            && (!o.multipleAllowed ==> Count(cs, Completes(user, offer)) <= 1)
            && (offer in s.desk.offers ==> o == s.desk.offers[offer].(status := o.status))
  {
    RunKeepsUsers(s, es);
    RunKeepsConfiguration(s, es);
    assert UserOk(SiteRun(s, es).desk, user, offer);
  }

  // ---------------------------------------------------------------- one conversion, one reward

  /** Each external id has one conversion; approved conversions and rewards for conversions
      correspond one to one. */
  ghost predicate LinksOk(s: Site) {
    var cs, rs := s.desk.conversions, s.tables.rewards;
    && (forall i, j | 0 <= i < j < |cs| :: !(cs[i].provider == cs[j].provider && cs[i].externalId == cs[j].externalId))
    && (forall i | 0 <= i < |cs| :: LinkOk(cs, rs, i))
    && (forall r | 0 <= r < |rs| :: BackLinkOk(cs, rs, r))
  }

  predicate LinkOk(cs: seq<Conversion>, rs: seq<Reward>, i: nat)
    requires i < |cs|
  {
    var c := cs[i];
    && (c.status == Approved <==> c.reward.Some?)
    && (c.status == Approved <==> c.counted.Some?)
    && (c.status == Approved <==> c.approvedAt.Some?)
    && (c.reward.Some? ==>
          && c.reward.value < |rs|
          && rs[c.reward.value].ref == ConversionRef(i)
          && rs[c.reward.value].source == RewardMath.Source.Offer
          && rs[c.reward.value].user == c.user
          && rs[c.reward.value].cash == c.userReward)
  }

  predicate BackLinkOk(cs: seq<Conversion>, rs: seq<Reward>, r: nat)
    requires r < |rs|
  {
    rs[r].ref.ConversionRef? ==> rs[r].ref.conversion < |cs| && cs[rs[r].ref.conversion].reward == Some(r)
  }

  lemma RowsKeepLinks(s: Site, c: Conversion, rs: seq<Reward>)
    requires LinksOk(s)
    requires FindConversion(s.desk.conversions, c.provider, c.externalId) < 0
    requires forall r | 0 <= r < |s.tables.rewards| :: r < |rs| && rs[r] == s.tables.rewards[r]
    requires LinkOk(s.desk.conversions + [c], rs, |s.desk.conversions|)
    requires c.reward.None? ==> |rs| == |s.tables.rewards|
    requires c.reward.Some? ==> c.reward.value == |s.tables.rewards| && |rs| == c.reward.value + 1
    ensures LinksOk(Site(s.desk.(conversions := s.desk.conversions + [c]), s.tables.(rewards := rs)))
  {
    var cs := s.desk.conversions;
    var more := cs + [c];
    forall i | 0 <= i < |more| ensures LinkOk(more, rs, i) {
      if i < |cs| {
        assert LinkOk(cs, s.tables.rewards, i);
      }
    }
    forall r | 0 <= r < |rs| ensures BackLinkOk(more, rs, r) {
      if r < |s.tables.rewards| {
        assert BackLinkOk(cs, s.tables.rewards, r);
      }
    }
  }

  lemma NewConversionIsUnclaimed(s: Site, user: nat)
    requires LinksOk(s)
    ensures FindClaim(s.tables.rewards, user, RewardMath.Source.Offer, ConversionRef(|s.desk.conversions|)) < 0
  {
    var n := |s.desk.conversions|;
    forall r | 0 <= r < |s.tables.rewards|
      ensures !SameClaim(s.tables.rewards[r], user, RewardMath.Source.Offer, ConversionRef(n))
    {
      assert BackLinkOk(s.desk.conversions, s.tables.rewards, r);
    }
  }

  lemma ConvertedKeepsLinks(s: Site, d: Delivery, found: Option<nat>)
    requires LinksOk(s) && (found.Some? ==> found.value < |d.rules|)
    requires Deliver(s, d, found).1.Converted?
    ensures LinksOk(Deliver(s, d, found).0)
  {
    hide Evaluate, Bumped, Refreshed, DayFull, LinksOk, RewardMath.ComputeAward;
    var n, user := |s.desk.conversions|, d.user.value;
    NewConversionIsUnclaimed(s, user);
    var issued := AwardOutcome(s.tables, AwardFor(d, user, n), d.rules, found).value;
    var row := ApprovedRow(WithOffer(s.desk, d), d, user, issued);
    assert issued.reward == |s.tables.rewards| && issued.tables.rewards[..issued.reward] == s.tables.rewards;
    assert LinkOk(s.desk.conversions + [row], issued.tables.rewards, n);
    RowsKeepLinks(s, row, issued.tables.rewards);
    SameRowsSameLinks(Site(s.desk.(conversions := s.desk.conversions + [row]),
        s.tables.(rewards := issued.tables.rewards)),
                      Deliver(s, d, found).0);
  }

  lemma SameRowsSameLinks(s: Site, u: Site)
    requires LinksOk(s) && u.desk.conversions == s.desk.conversions && u.tables.rewards == s.tables.rewards
    ensures LinksOk(u)
  {
  }

  lemma ServiceKeepsLinks(s: Site, x: Action)
    requires LinksOk(s) && OwnClaims(Service(x))
    ensures LinksOk(SiteStep(s, Service(x)))
  {
    var t, u := s.tables, Step(s.tables, x);
    StepEvolves(t, x);
    forall i | 0 <= i < |s.desk.conversions| ensures LinkOk(s.desk.conversions, u.rewards, i) {
      assert LinkOk(s.desk.conversions, t.rewards, i);
    }
    forall r | 0 <= r < |u.rewards| ensures BackLinkOk(s.desk.conversions, u.rewards, r) {
      if r < |t.rewards| {
        assert BackLinkOk(s.desk.conversions, t.rewards, r);
      } else {
        NewRewardsAreIssued(t, x, r);
      }
    }
  }

  lemma DeliveryKeepsLinks(s: Site, d: Delivery, found: Option<nat>)
    requires LinksOk(s) && (found.Some? ==> found.value < |d.rules|)
    ensures LinksOk(Deliver(s, d, found).0)
  {
    hide LinksOk, LinkOk, Evaluate, AwardOutcome, FindConversion;
    var outcome := Deliver(s, d, found).1;
    if outcome.RejectedByProvider? || outcome.Ineligible? {
      RejectionKeepsLinks(s, d);
      SameRowsSameLinks(s.(desk := s.desk.(conversions := s.desk.conversions + [RejectedRow(d, d.user.value)])),
                        Deliver(s, d, found).0);
    } else if outcome.Converted? {
      ConvertedKeepsLinks(s, d, found);
    }
  }

  lemma RejectionKeepsLinks(s: Site, d: Delivery)
    requires LinksOk(s) && d.user.Some? && FindConversion(s.desk.conversions, d.provider, d.externalId) < 0
    ensures LinksOk(s.(desk := s.desk.(conversions := s.desk.conversions + [RejectedRow(d, d.user.value)])))
  {
    hide LinksOk;
    RowsKeepLinks(s, RejectedRow(d, d.user.value), s.tables.rewards);
    assert s.tables == s.tables.(rewards := s.tables.rewards);
  }

  lemma StepKeepsLinks(s: Site, e: Event)
    requires LinksOk(s) && OwnClaims(e)
    ensures LinksOk(SiteStep(s, e))
  {
    hide LinksOk, LinkOk, Deliver;
    match e
    case Postback(d, found) =>
      if found.Some? ==> found.value < |d.rules| {
        DeliveryKeepsLinks(s, d, found);
      }
    case QuotaTask(now) => SameRowsSameLinks(s, SiteStep(s, QuotaTask(now)));
    case Service(x) => ServiceKeepsLinks(s, x);
  }

  ghost predicate Unconverted(s: Site) {
    s.desk.conversions == [] && forall r | 0 <= r < |s.tables.rewards| :: !s.tables.rewards[r].ref.ConversionRef?
  }

  /** On every run, whatever the clocks say, each provider and external id has at most one conversion,
      and each approved conversion exactly one reward. */
  lemma {:induction false} OneConversionOneReward(s: Site, es: seq<Event>)
    requires Unconverted(s) && forall e | e in es :: OwnClaims(e)
    ensures LinksOk(SiteRun(s, es))
  {
    if es != [] {
      var n := |es| - 1;
      OneConversionOneReward(s, es[..n]);
      StepKeepsLinks(SiteRun(s, es[..n]), es[n]);
    }
  }

  lemma StepAppendsConversions(s: Site, e: Event)
    ensures s.desk.conversions <= SiteStep(s, e).desk.conversions
  {
  }

  lemma {:induction false} ConversionsPersist(s: Site, es: seq<Event>)
    ensures s.desk.conversions <= SiteRun(s, es).desk.conversions
  {
    if es != [] {
      ConversionsPersist(s, es[..|es| - 1]);
      StepAppendsConversions(SiteRun(s, es[..|es| - 1]), es[|es| - 1]);
    }
  }

  /** Replay: delivering a recorded id again, after any run in between and with whatever else in the
      payload, changes neither conversions nor money nor quotas. */
  lemma ReplayChangesNothing(s: Site, es: seq<Event>, again: Delivery, found: Option<nat>, i: nat)
    requires i < |s.desk.conversions|
    requires again.provider == s.desk.conversions[i].provider && again.externalId == s.desk.conversions[i].externalId
    ensures SiteStep(SiteRun(s, es), Postback(again, found)) == SiteRun(s, es)
  {
    ConversionsPersist(s, es);
    assert SiteRun(s, es).desk.conversions[i] == s.desk.conversions[i];
  }
}
