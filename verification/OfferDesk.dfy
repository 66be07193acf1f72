/** The offer services as a database that is changed step by step (apps/offers/services.py,
    apps/offers/eligibility.py, apps/offers/tasks.py). */
module OfferDesks {
  import opened Calendar
  import opened Outcomes
  import opened RewardMath
  import opened Sums
  import opened MoneyTables
  import opened Platforms
  import opened Spec = Offers
  import opened OfferContracts

  class OfferDesk {
    const platform: Platform
    var offers: map<nat, Spec.Offer>
    var quotas: map<nat, Quota>
    var conversions: seq<Conversion>
    ghost var clock: int

    ghost function D(): Desk
      reads this
    {
      Desk(offers, quotas, conversions, clock)
    }

    ghost function S(): Site
      reads this, platform
    {
      Site(D(), platform.T())
    }

    /** Every quota belongs to an offer, and the money tables are in order. */
    ghost predicate Valid()
      reads this, platform, platform.store
    {
      platform.Valid() && quotas.Keys <= offers.Keys
    }

    constructor (platform: Platform, offers: map<nat, Spec.Offer>, quotas: map<nat, Quota>)
      requires platform.Valid() && quotas.Keys <= offers.Keys
      ensures Valid() && this.platform == platform
      ensures S() == Site(Desk(offers, quotas, [], 0), platform.T())
    {
      this.platform := platform;
      this.offers, this.quotas, this.conversions, this.clock := offers, quotas, [], 0;
    }

    // -------------------------------------------------------------- quotas

    /** What the loop over the quotas does for one quota and its offer. */
    method RecalculateOne(o: nat, now: int) returns (changed: bool, resumed: bool)
      requires o in quotas && o in offers
      modifies this`quotas, this`offers
      ensures D() == RecalculatedOne(old(D()), o, now)
      ensures changed <==> ResetsOne(old(D()), o, now)
      ensures resumed <==> ResumesOne(old(D()), o, now)
    {
      var q := quotas[o];
      changed, resumed := false, false;
      if HourDue(q, now) {
        q := q.(thisHour := 0, lastHour := Some(now));
        changed := true;
      }
      if DayDue(q, now) {
        q := q.(today := 0, lastDay := Some(now));
        changed := true;
      }
      if changed {
        quotas := quotas[o := q];
      }
      if offers[o].status == PausedByQuota {
        var underCap := (q.dailyCap.None? || q.today < q.dailyCap.value)
            && (q.hourlyCap.None? || q.thisHour < q.hourlyCap.value);
        if underCap {
          offers := offers[o := offers[o].(status := Active)];
          resumed := true;
        }
      }
    }

    /** One round of the loop over the quotas, told from where the loop began. */
    method RecalculateNext(ghost was: Desk, ghost seen: set<nat>, o: nat, now: int)
        returns (changed: bool, resumed: bool)
      requires o in was.quotas && o in was.offers && o !in seen
      requires D() == PartlyRecalculated(was, seen, now)
      modifies this`quotas, this`offers
      ensures D() == PartlyRecalculated(was, seen + {o}, now)
      ensures changed == Resets(was, now)(o)
      ensures resumed == Resumes(was, now)(o)
    {
      OneMoreRecalculated(was, seen, o, now);
      changed, resumed := RecalculateOne(o, now);
    }

    /** `recalculate_campaign_quotas`: every quota in turn; it reports what it changed. */
    method RecalculateCampaignQuotas(now: int) returns (reset: nat, resumed: nat)
      requires quotas.Keys <= offers.Keys
      modifies this
      ensures quotas.Keys <= offers.Keys && D() == Recalculate(old(D()), now)
      ensures Recalculated(old(D()), now, D(), reset, resumed)
    {
      reset, resumed := 0, 0;
      ghost var was, all := D(), quotas.Keys;
      var rest := quotas.Keys;
      clock := now;
      NothingRecalculated(was, now);
      assert all - rest == {};
      while rest != {}
        invariant rest <= all
        invariant D() == PartlyRecalculated(was, all - rest, now)
        invariant reset == |Chosen(all - rest, Resets(was, now))|
        invariant resumed == |Chosen(all - rest, Resumes(was, now))|
        decreases |rest|
      {
        var o :| o in rest;
        ghost var seen := all - rest;
        TakingOne(all, rest, o);
        var changed, back := RecalculateNext(was, seen, o, now);
        OneMoreChosen(seen, o, Resets(was, now));
        OneMoreChosen(seen, o, Resumes(was, now));
        reset := reset + (if changed then 1 else 0);
        resumed := resumed + (if back then 1 else 0);
        rest := rest - {o};
      }
      assert all - {} == all;
      AllRecalculated(was, now);
      RecalculationIsRight(was, now);
    }

    /** `bump_quota` */
    method Bump(offer: nat, now: int)
      requires offer in offers && quotas.Keys <= offers.Keys
      modifies this`quotas, this`offers
      ensures D() == BumpQuota(old(D()), offer, now) && quotas.Keys <= offers.Keys
      ensures CountedOnce(old(D()), offer, now, D())
    {
      hide CountedOnce;
      BumpCountsOnce(D(), offer, now);
      if offer !in quotas {
        quotas := quotas[offer := NEW_QUOTA];
      }
      var q := quotas[offer];
      if HourDue(q, now) {
        q := q.(thisHour := 0, lastHour := Some(now));
      }
      if DayDue(q, now) {
        q := q.(today := 0, lastDay := Some(now));
      }
      q := q.(today := q.today + 1, thisHour := q.thisHour + 1, lifetime := q.lifetime + 1);
      if q.dailyCap.Some? && q.today >= q.dailyCap.value {
        offers := offers[offer := offers[offer].(status := PausedByQuota)];
      }
      quotas := quotas[offer := q];
    }

    // -------------------------------------------------------------- eligibility

    /** The two counting queries over a user's conversions of an offer. */
    method CountCompletions(user: nat, offer: nat, day: int) returns (total: nat, onDay: nat)
      ensures total == Count(conversions, Completes(user, offer))
      ensures onDay == Count(conversions, CompletesOn(user, offer, day))
    {
      total, onDay := 0, 0;
      for i := 0 to |conversions|
        invariant total == Count(conversions[..i], Completes(user, offer))
        invariant onDay == Count(conversions[..i], CompletesOn(user, offer, day))
      {
        var c := conversions[i];
        assert conversions[..i + 1] == conversions[..i] + [c];
        CountAppend(conversions[..i], c, Completes(user, offer));
        CountAppend(conversions[..i], c, CompletesOn(user, offer, day));
        if c.user == user && c.offer == offer && c.status != Rejected {
          total := total + 1;
          if Day(c.createdAt) == day {
            onDay := onDay + 1;
          }
        }
      }
      assert conversions[..|conversions|] == conversions;
    }

    /** `evaluate_offer`: the reasons are collected one check after the other. */
    method EvaluateOffer(d: Delivery, user: nat) returns (e: Eligibility)
      requires d.offer in offers
      ensures e == Evaluate(D(), d, user)
    {
      if d.offersDisabled {
        return NotEligible([OffersDisabled]);
      }
      var o := offers[d.offer];
      var q := if d.offer in quotas then quotas[d.offer] else NEW_QUOTA;
      var reasons := OfferReasons(o, d);
      reasons := reasons + QuotaReasons(q, d);
      var completed, today := CountCompletions(user, d.offer, Day(d.evaluatedAt));
      reasons := reasons
        + (When(completed > 0 && !o.multipleAllowed, AlreadyCompleted)
           + When(completed >= o.lifetimeUserLimit, LifetimeLimitReached)
           + When(today >= o.dailyUserLimit, DailyLimitReached));
      if reasons != [] {
        return NotEligible(reasons);
      }
      if d.riskScore >= 51 {
        return RequiresReview;
      }
      return Eligible;
    }

    // -------------------------------------------------------------- postbacks

    method FindExisting(provider: nat, externalId: string) returns (i: int)
      ensures i == FindConversion(conversions, provider, externalId)
    {
      assert conversions[..|conversions|] == conversions;
      i := -1;
      for n := 0 to |conversions|
        invariant i == FindConversion(conversions[..n], provider, externalId)
      {
        assert conversions[..n + 1][..n] == conversions[..n];
        if i < 0 && conversions[n].provider == provider && conversions[n].externalId == externalId {
          i := n;
        }
      }
    }

    /** `process_postback`.  When awarding raises, the `atomic` block takes the new rows back. */
    method ProcessPostback(d: Delivery) returns (outcome: Outcome, ghost found: Option<nat>)
      requires Valid()
      modifies this, platform, platform.store
      ensures Valid()
      ensures found.Some? ==> found.value < |d.rules|
      ensures outcome.Converted? || outcome.Raised? ==>
                d.user.Some? && IsFirstMatch(d.rules, ContextOf(d), found)
      ensures (S(), outcome) == Deliver(old(S()), d, found)
      ensures !outcome.Converted? ==> platform.store.View() == old(platform.store.View())
      ensures PostbackAnswers(old(S()), old(platform.store.View()), d, found, outcome, S(), platform.store.View())
    {
      hide PostbackAnswers, ConversionRecorded, Platform.Valid, AwardAnswers, Evaluate, ApprovedRow;
      found := None;
      if !d.signatureValid {
        outcome := InvalidSignature;
      } else if !d.parsed {
        outcome := ParseError;
      } else {
        var known := FindExisting(d.provider, d.externalId);
        if known >= 0 {
          outcome := Duplicate(known);
        } else if d.user.None? {
          outcome := UnknownUser;
        } else {
          outcome, found := ProcessNew(d, d.user.value);
        }
      }
      PostbackIsAnswered(old(S()), old(platform.store.View()), d, found, outcome, S(), platform.store.View());
    }

    /** The part of `process_postback` from the point where the user of a new conversion is known. */
    method ProcessNew(d: Delivery, user: nat) returns (outcome: Outcome, ghost found: Option<nat>)
      requires Valid() && d.signatureValid && d.parsed && d.user == Some(user)
      requires FindConversion(conversions, d.provider, d.externalId) < 0
      modifies this, platform, platform.store
      ensures Valid()
      ensures found.Some? ==> found.value < |d.rules|
      ensures outcome.Converted? || outcome.Raised? ==> IsFirstMatch(d.rules, ContextOf(d), found)
      ensures (S(), outcome) == Deliver(old(S()), d, found)
      ensures !outcome.Converted? ==> platform.store.View() == old(platform.store.View())
      ensures outcome.Raised? ==>
                AwardAnswers(old(S()).tables, old(platform.store.View()), EarnedAward(d, user, |old(conversions)|),
                             d.rules, found, Err(outcome.failure), old(S()).tables, old(platform.store.View()))
      ensures outcome.Converted? ==>
                ConversionRecorded(old(S()), old(platform.store.View()), d, found, S(), platform.store.View())
    {
      hide ConversionRecorded, Platform.Valid, AwardAnswers, Evaluate, ApprovedRow, BumpQuota, AwardOutcome, AwardFor;
      hide EarnedAward, ContextOf, RewardMath.IsFirstMatch;
      found := None;
      var n, saved := |conversions|, offers;
      if d.offer !in offers {
        offers := offers[d.offer := Spec.Offer(Active, None, d.providerConsents, [], [], false, 1, 1)];
      }
      if !d.approved {
        RecordRejection(d, user);
        return RejectedByProvider(n), found;
      }
      var eligibility := EvaluateOffer(d, user);
      if eligibility != Eligible {
        RecordRejection(d, user);
        return Ineligible(n), found;
      }
      var r;
      r, found := RewardConversion(d, user, old(S()));
      if r.Err? {
        offers := saved;
        return Raised(r.error), found;
      }
      return Converted(n), found;
    }

    /** The award for a new conversion of a site `s` whose offer has been provisioned, and its row. */
    method RewardConversion(d: Delivery, user: nat, ghost s: Site)
      returns (r: Result<(), Failure>, ghost found: Option<nat>)
      requires Valid() && d.user == Some(user) && D() == WithOffer(s.desk, d) && platform.T() == s.tables
      modifies this, platform, platform.store
      ensures Valid()
      ensures (found.Some? ==> found.value < |d.rules|) && IsFirstMatch(d.rules, ContextOf(d), found)
      ensures match AwardOutcome(s.tables, AwardFor(d, user, |s.desk.conversions|), d.rules, found) {
                case Ok(issued) =>
                  && r == Ok(()) && platform.T() == issued.tables
                  && D() == BumpQuota(WithRow(old(D()), ApprovedRow(old(D()), d, user, issued), d.countedAt), d.offer,
                                      d.countedAt)
                  && ConversionRecorded(s, old(platform.store.View()), d, found, S(), platform.store.View())
                case Err(e) =>
                  && r == Err(e) && S() == old(S()) && platform.store.View() == old(platform.store.View())
                  && AwardAnswers(s.tables, old(platform.store.View()), EarnedAward(d, user, |s.desk.conversions|),
                                  d.rules, found, Err(e), s.tables, old(platform.store.View()))
              }
    {
      hide ConversionRecorded, AwardAnswers, ApprovedRow, AwardOutcome, BumpQuota;
      AwardIsEarned(d, user, |conversions|);
      var x;
      x, found := platform.MakeAward(AwardFor(d, user, |conversions|), d.rules);
      if x.Err? {
        return Err(x.error), found;
      }
      ghost var issued := Issued(platform.T(), x.value.0, x.value.1);
      assert AwardOutcome(s.tables, AwardFor(d, user, |s.desk.conversions|), d.rules, found) == Ok(issued);
      AwardGrows(s.tables, old(platform.store.View()), d, user, |conversions|, found, x, platform.T(),
                 platform.store.View());
      RecordApproval(d, user, x.value.0);
      ConversionIsRecorded(s, old(platform.store.View()), d, found, issued, platform.store.View());
      return Ok(()), found;
    }

    method RecordRejection(d: Delivery, user: nat)
      modifies this`conversions, this`clock
      ensures D() == WithRow(old(D()), RejectedRow(d, user), d.createdAt)
    {
      conversions := conversions + [RejectedRow(d, user)];
      clock := d.createdAt;
    }

    /** The conversion is marked approved with its reward, and the campaign quota is bumped. */
    method RecordApproval(d: Delivery, user: nat, reward: nat)
      requires d.offer in offers && quotas.Keys <= offers.Keys
      modifies this
      ensures quotas.Keys <= offers.Keys
      ensures forall issued: Issued | issued.tables == platform.T() && issued.reward == reward ::
                D() == BumpQuota(WithRow(old(D()), ApprovedRow(old(D()), d, user, issued), d.countedAt), d.offer,
                    d.countedAt)
    {
      ghost var desk := D();
      var cash := if reward < |platform.rewards| then platform.rewards[reward].cash else 0;
      var q := if d.offer in quotas then quotas[d.offer] else NEW_QUOTA;
      var window := Refreshed(q, d.countedAt).lastHour;
      var counted := Counted(d.countedAt, if window.Some? then window.value else d.countedAt);
      var row := Conversion(d.provider, d.externalId, user, d.offer, Approved, d.createdAt, cash, Some(reward),
                            Some(d.approvedAt), Some(counted));
      conversions := conversions + [row];
      clock := d.countedAt;
      assert D() == WithRow(desk, row, d.countedAt);
      Bump(d.offer, d.countedAt);
    }

    // -------------------------------------------------------------- whole runs

    /** Postbacks, quota tasks and money services in any order do to the site exactly what the
        site machine says, and the ledger stays in order throughout. */
    method Replay(es: seq<Event>) returns (ghost done: seq<Event>)
      requires Valid()
      modifies this, platform, platform.store
      ensures Valid() && S() == SiteRun(old(S()), done)
      ensures |done| == |es| && forall i | 0 <= i < |es| :: SameEvent(es[i], done[i])
    {
      hide Deliver, Recalculate, Step, Platform.Valid, PostbackAnswers, Recalculated;
      done := [];
      for i := 0 to |es|
        invariant Valid() && S() == SiteRun(old(S()), done)
        invariant |done| == i && forall j | 0 <= j < i :: SameEvent(es[j], done[j])
      {
        ghost var e := es[i];
        match es[i] {
          case Postback(d, _) =>
            var _, found := ProcessPostback(d);
            e := Postback(d, found);
          case QuotaTask(now) =>
            var _, _ := RecalculateCampaignQuotas(now);
          case Service(x) =>
            platform.Call(x);
        }
        assert (done + [e])[..i] == done;
        done := done + [e];
      }
    }
  }

  ghost predicate ResetsOne(desk: Desk, o: nat, now: int) {
    o in desk.quotas && (HourDue(desk.quotas[o], now) || DayDue(desk.quotas[o], now))
  }

  ghost predicate ResumesOne(desk: Desk, o: nat, now: int) {
    o in desk.quotas && o in desk.offers
    && Resumed(desk.offers[o], Refreshed(desk.quotas[o], now)).status != desk.offers[o].status
  }

  ghost function RecalculatedOne(desk: Desk, o: nat, now: int): Desk {
    if o in desk.quotas && o in desk.offers then
      desk.(quotas := desk.quotas[o := Refreshed(desk.quotas[o], now)],
            offers := desk.offers[o := Resumed(desk.offers[o], Refreshed(desk.quotas[o], now))])
    else desk
  }

  /** The desk when the quota task has gone through some of the quotas. */
  ghost function PartlyRecalculated(desk: Desk, seen: set<nat>, now: int): Desk {
    desk.(
      quotas := map o | o in desk.quotas :: if o in seen then Refreshed(desk.quotas[o], now) else desk.quotas[o],
      offers := map o | o in desk.offers ::
                  if o in seen && o in desk.quotas then Resumed(desk.offers[o], Refreshed(desk.quotas[o], now))
                      else desk.offers[o],
      clock := now)
  }

  /** The quotas whose counters are reset, and those whose offers resume. */
  ghost function Resets(desk: Desk, now: int): nat -> bool {
    (o: nat) => ResetsOne(desk, o, now)
  }

  ghost function Resumes(desk: Desk, now: int): nat -> bool {
    (o: nat) => ResumesOne(desk, o, now)
  }

  ghost function Chosen(among: set<nat>, p: nat -> bool): set<nat> {
    set o | o in among && p(o)
  }

  lemma TakingOne(all: set<nat>, rest: set<nat>, o: nat)
    requires rest <= all && o in rest
    ensures all - (rest - {o}) == (all - rest) + {o} && o !in all - rest
    ensures |rest - {o}| < |rest|
  {
  }

  lemma OneMoreChosen(among: set<nat>, o: nat, p: nat -> bool)
    requires o !in among
    ensures |Chosen(among + {o}, p)| == |Chosen(among, p)| + (if p(o) then 1 else 0)
  {
    assert Chosen(among + {o}, p) == Chosen(among, p) + (if p(o) then {o} else {});
  }

  lemma NothingRecalculated(desk: Desk, now: int)
    ensures PartlyRecalculated(desk, {}, now) == desk.(clock := now)
  {
    var p := PartlyRecalculated(desk, {}, now);
    assert p.quotas == desk.quotas;
    assert p.offers == desk.offers;
  }

  lemma AllRecalculated(desk: Desk, now: int)
    requires desk.quotas.Keys <= desk.offers.Keys
    ensures PartlyRecalculated(desk, desk.quotas.Keys, now) == Recalculate(desk, now)
  {
    var p, r := PartlyRecalculated(desk, desk.quotas.Keys, now), Recalculate(desk, now);
    assert p.quotas == r.quotas;
    assert p.offers == r.offers;
  }

  lemma RecalculationIsRight(desk: Desk, now: int)
    requires desk.quotas.Keys <= desk.offers.Keys
    ensures Recalculated(desk, now, Recalculate(desk, now), |Chosen(desk.quotas.Keys, Resets(desk, now))|,
                         |Chosen(desk.quotas.Keys, Resumes(desk, now))|)
  {
    hide Recalculate, Counts, ToResume, ResetsOne, ResumesOne, HourOver, DayOver;
    var after := Recalculate(desk, now);
    KeysKept(desk, now);
    forall o | o in desk.offers
      ensures after.offers[o] == if ToResume(desk, after, o) then desk.offers[o].(status := Active) else desk.offers[o]
    {
      OfferIsRight(desk, o, now);
    }
    forall o | o in desk.quotas
      ensures Counts(desk.quotas[o], after.quotas[o], now, 0)
      ensures ResetsOne(desk, o, now) <==> HourOver(desk.quotas[o], now) || DayOver(desk.quotas[o], now)
      ensures ResumesOne(desk, o, now) <==> ToResume(desk, after, o)
    {
      OfferIsRight(desk, o, now);
      QuotaIsRight(desk, o, now);
    }
    assert Chosen(desk.quotas.Keys, Resets(desk, now))
        == set o | o in desk.quotas && (HourOver(desk.quotas[o], now) || DayOver(desk.quotas[o], now));
    assert Chosen(desk.quotas.Keys, Resumes(desk, now)) == set o | o in desk.quotas && ToResume(desk, after, o);
  }

  lemma KeysKept(desk: Desk, now: int)
    ensures var after := Recalculate(desk, now);
            && after.quotas.Keys == desk.quotas.Keys && after.offers.Keys == desk.offers.Keys
            && after.conversions == desk.conversions && after.clock == now
  {
  }

  lemma QuotaIsRight(desk: Desk, o: nat, now: int)
    requires o in desk.quotas
    ensures var after := Recalculate(desk, now);
            && o in after.quotas && Counts(desk.quotas[o], after.quotas[o], now, 0)
            && (ResetsOne(desk, o, now) <==> HourOver(desk.quotas[o], now) || DayOver(desk.quotas[o], now))
  {
  }

  lemma OfferIsRight(desk: Desk, o: nat, now: int)
    requires o in desk.offers
    ensures var after := Recalculate(desk, now);
            && o in after.offers
            && after.offers[o] ==
               (if ToResume(desk, after, o) then desk.offers[o].(status := Active) else desk.offers[o])
            && (ResumesOne(desk, o, now) <==> ToResume(desk, after, o))
  {
    hide HourDue, DayDue;
  }

  lemma OneMoreRecalculated(desk: Desk, seen: set<nat>, o: nat, now: int)
    requires o in desk.quotas && o in desk.offers && o !in seen
    ensures var p := PartlyRecalculated(desk, seen, now);
            && o in p.quotas && p.quotas[o] == desk.quotas[o]
            && o in p.offers && p.offers[o] == desk.offers[o]
            && PartlyRecalculated(desk, seen + {o}, now) == RecalculatedOne(p, o, now)
  {
    var p, q := PartlyRecalculated(desk, seen, now), PartlyRecalculated(desk, seen + {o}, now);
    assert p.quotas[o] == desk.quotas[o] && p.offers[o] == desk.offers[o];
    assert q.quotas == RecalculatedOne(p, o, now).quotas;
    assert q.offers == RecalculatedOne(p, o, now).offers;
  }

  /** The same event, up to the reward rule that resolution found. */
  ghost predicate SameEvent(e: Event, f: Event) {
    if e.Postback? then f.Postback? && f.delivery == e.delivery else f == e
  }
}
