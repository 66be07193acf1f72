/** What is promised of game sessions, told from the arguments and the arcade before and after.  Times
    are in microseconds. */
module GameContracts {
  import opened Outcomes
  import opened Decimals
  import RewardMath
  import opened Sums
  import opened MoneyTables
  import opened ServiceContracts
  import opened Calendar
  import opened Games

  // ---------------------------------------------------------------- starting

  function StartedThatDay(ss: seq<Session>, user: nat, game: nat, today: int): set<int> {
    set j | 0 <= j < |ss| && ss[j].user == user && ss[j].game == game
            && ss[j].startedAt / 86400000000 == today / 86400000000
  }

  /** A session starts exactly if games are enabled, the game is known and available, and the user has
      started it less often today than it allows. */
  ghost predicate StartAnswers(h: Hall, user: nat, game: nat, enabled: bool, available: bool, today: int, now: int,
                               r: Result<nat, Refusal>, g: Hall)
  {
    if enabled && available && game in h.games
       && |StartedThatDay(h.sessions, user, game, today)| < h.games[game].maxDailySessions then
      && r == Ok(|h.sessions|) && g.games == h.games && g.clock == now
      && |g.sessions| == |h.sessions| + 1 && g.sessions[..|h.sessions|] == h.sessions
      && var s := g.sessions[|h.sessions|];
         && s.user == user && s.game == game && s.status == Playing && s.startedAt == now
         && s.endedAt.None? && s.score.None? && s.reward.None?
    else
      && g == h
      && r == Err(if !enabled then GamesDisabled
                  else if !available || game !in h.games then NotAvailable else DailyLimit)
  }

  lemma StartIsAnswered(h: Hall, user: nat, game: nat, enabled: bool, available: bool, today: int, now: int)
    ensures match Start(h, user, game, enabled, available, today, now)
            case Ok(g) => StartAnswers(h, user, game, enabled, available, today, now, Ok(|h.sessions|), g)
            case Err(e) => StartAnswers(h, user, game, enabled, available, today, now, Err(e), h)
  {
    CountIsCardinality(h.sessions, StartedOn(user, game, Day(today)));
    assert Positions(h.sessions, StartedOn(user, game, Day(today))) == StartedThatDay(h.sessions, user, game, today);
  }

  // ---------------------------------------------------------------- ending

  /** Whole seconds from the start to the end, and none if the clock went back. */
  function Played(s: Session, now: int): nat {
    if now <= s.startedAt then 0 else (now - s.startedAt) / 1000000
  }

  /** Only session `i` changed, and it was ended now with this score. */
  ghost predicate EndedNow(h: Hall, i: nat, score: Option<int>, now: int, g: Hall, status: SessionStatus) {
    && i < |h.sessions| == |g.sessions| && g.games == h.games && g.sessions == h.sessions[i := g.sessions[i]]
    && var s, e := h.sessions[i], g.sessions[i];
       && e.user == s.user && e.game == s.game && e.startedAt == s.startedAt
       && e.status == status && e.endedAt == Some(now) && e.score == score && e.duration == Played(s, now)
  }

  /** The amounts that a rule pays, in points or in cash. */
  function PaysCash(rule: GameRule): int {
    match rule.mode
    case InCash => rule.cash
    case InPoints => 0
  }

  function PaysPoints(rule: GameRule): int {
    match rule.mode
    case InCash => 0
    case InPoints => rule.points
  }

  /** `k` is the first check whose rule is not passed over, or there is none and `k` is their number. */
  ghost predicate FirstRule(ss: seq<Session>, e: Session, checks: seq<Check>, k: nat) {
    && k <= |checks|
    && (forall j | 0 <= j < k :: PassedOver(ss, e, checks[j]))
    && (k < |checks| ==> !PassedOver(ss, e, checks[k]))
  }

  /** The reward for a session is new, goes to its player, pays what the rule says and is approved. */
  ghost predicate RewardedUnder(a: Arcade, i: nat, c: Check, b: Arcade) {
    && i < |b.hall.sessions|
    && b.hall.sessions[i].reward == Some(Given(c.rule, |a.tables.rewards|, c.at))
    && b.tables == a.tables.(rewards := b.tables.rewards) && |b.tables.rewards| == |a.tables.rewards| + 1
    && b.tables.rewards[..|a.tables.rewards|] == a.tables.rewards
    && var r := b.tables.rewards[|a.tables.rewards|];
       && r.user == b.hall.sessions[i].user && r.source == RewardMath.Source.Game && r.ref == SessionRef(i)
       && r.cash == PaysCash(c.rule) && r.points == PaysPoints(c.rule) && (r.cash > 0 || r.points > 0)
       && r.currency == PKR && r.createdAt == c.at && r.status == RApproved && !r.held && r.rule.None?
  }

  /** A session that is long enough is ended, and rewarded under rule `k` if there is one. */
  ghost predicate EndedUnder(a: Arcade, i: nat, score: Option<int>, checks: seq<Check>, now: int, k: nat,
                             r: Result<Session, Refusal>, b: Arcade)
    requires i < |a.hall.sessions|
  {
    var s := a.hall.sessions[i];
    if k >= |checks| then
      && EndedNow(a.hall, i, score, now, b.hall, Ended) && b.tables == a.tables
      && b.hall.sessions[i].reward == s.reward && r == Ok(b.hall.sessions[i])
    else if Claimed(a.tables.rewards, s.user, RewardMath.Source.Game, SessionRef(i)) then
      && EndedNow(a.hall, i, score, now, b.hall, Ended) && b.tables == a.tables
      && b.hall.sessions[i].reward.None? && r == Ok(b.hall.sessions[i])
    else if PaysCash(checks[k].rule) <= 0 && PaysPoints(checks[k].rule) <= 0 then
      r == Err(NotRewarded(ZeroReward)) && b == a
    else
      && EndedNow(a.hall, i, score, now, b.hall, Ended) && RewardedUnder(a, i, checks[k], b)
      && r == Ok(b.hall.sessions[i])
  }

  /** What becomes of a call that ends a session.  A session that is too short is invalidated.  Any other
      is ended and rewarded under the first rule that is not passed over; if that rule pays nothing the
      call raises and leaves everything as it was.  A session is never rewarded twice. */
  ghost predicate EndAnswers(a: Arcade, i: nat, score: Option<int>, checks: seq<Check>, now: int,
                             r: Result<Session, Refusal>, b: Arcade)
  {
    var ss := a.hall.sessions;
    if i >= |ss| then r == Err(NoSession) && b == a
    else if ss[i].status != Playing then r == Ok(ss[i]) && b == a
    else
      var minimum := if ss[i].game in a.hall.games then a.hall.games[ss[i].game].minSeconds else 0;
      if Played(ss[i], now) < minimum then
        && EndedNow(a.hall, i, score, now, b.hall, Invalidated) && b.tables == a.tables
        && b.hall.sessions[i].reward == ss[i].reward && r == Ok(b.hall.sessions[i])
      else
        var e := ss[i].(status := Ended, endedAt := Some(now), duration := Played(ss[i], now), score := score);
        exists k :: FirstRule(ss, e, checks, k) && EndedUnder(a, i, score, checks, now, k, r, b)
  }

  lemma PlayedIsDuration(s: Session, minimum: nat, score: Option<int>, now: int)
    ensures Closed(s, minimum, score, now)
         == s.(status := if Played(s, now) < minimum then Invalidated else Ended, endedAt := Some(now),
               duration := Played(s, now), score := score)
  {
  }

  /** The number of the rule that `FindRule` finds, or of all of them. */
  lemma FoundRule(checks: seq<Check>, ss: seq<Session>, e: Session) returns (k: nat)
    ensures FirstRule(ss, e, checks, k)
    ensures k == if FindRule(checks, ss, e) < 0 then |checks| else FindRule(checks, ss, e)
  {
    hide Passes, PassedOver;
    forall j | 0 <= j < |checks| ensures Passes(ss, e, checks[j]) <==> !PassedOver(ss, e, checks[j]) {
      PassesIffNotPassedOver(ss, e, checks[j]);
    }
    k := if FindRule(checks, ss, e) < 0 then |checks| else FindRule(checks, ss, e);
  }

  lemma AwardedUnder(a: Arcade, i: nat, e: Session, checks: seq<Check>, now: int, k: nat)
    requires i < |a.hall.sessions| && k <= |checks|
    requires var s := a.hall.sessions[i];
             e == s.(status := Ended, endedAt := Some(now), duration := Played(s, now), score := e.score)
    requires k == if FindRule(checks, a.hall.sessions, e) < 0 then |checks| else FindRule(checks, a.hall.sessions, e)
    ensures match Awarded(a, i, e, checks, now)
            case Ok(b) =>
              i < |b.hall.sessions| && EndedUnder(a, i, e.score, checks, now, k, Ok(b.hall.sessions[i]), b)
            case Err(x) => EndedUnder(a, i, e.score, checks, now, k, Err(x), a)
  {
    hide Passes, Finished, Played, FindClaim, Claimed;
    FoundIffClaimed(a.tables.rewards, e.user, RewardMath.Source.Game, SessionRef(i));
  }

  lemma EndIsAnswered(a: Arcade, i: nat, score: Option<int>, checks: seq<Check>, now: int)
    ensures match End(a, i, score, checks, now)
            case Ok(b) =>
              i < |a.hall.sessions| ==>
                i < |b.hall.sessions| && EndAnswers(a, i, score, checks, now, Ok(b.hall.sessions[i]), b)
            case Err(e) => EndAnswers(a, i, score, checks, now, Err(e), a)
  {
    hide Awarded, FirstRule, EndedUnder, Played;
    var ss := a.hall.sessions;
    if i < |ss| && ss[i].status == Playing {
      PlayedIsDuration(ss[i], MinSeconds(a.hall, ss[i].game), score, now);
      var e := Closed(ss[i], MinSeconds(a.hall, ss[i].game), score, now);
      if e.status == Ended {
        var k := FoundRule(checks, ss, e);
        AwardedUnder(a, i, e, checks, now, k);
      }
    }
  }
}
