/** What holds of game sessions and their rewards on every run. */
module GameRuns {
  import opened Calendar
  import opened Outcomes
  import opened Decimals
  import RewardMath
  import opened Sums
  import opened MoneyTables
  import opened Lifecycles
  import opened Games
  import opened ServiceContracts
  import opened GameContracts

  // ---------------------------------------------------------------- steps

  /** Session `i` is closed as `s` by a call that reads the clock from `now` to `finish`; if it is
      rewarded, the rule applied to it when it was looked at. */
  ghost predicate Closing(h: Hall, i: nat, s: Session, now: int, finish: int) {
    && i < |h.sessions| && h.sessions[i].status == Playing && h.clock <= now <= finish
    && s.(reward := h.sessions[i].reward) == Closed(h.sessions[i], MinSeconds(h, h.sessions[i].game), s.score, now)
    && (s.reward.Some? ==>
          && s.status == Ended && now <= s.reward.value.at <= finish
          && Applies(h.sessions, s, s.reward.value.rule, s.reward.value.at))
  }

  /** The last clock reading of a call to `end_session`, which looks at rules only if the session is
      long enough. */
  function FinishOf(h: Hall, i: nat, checks: seq<Check>, now: int): int
    requires i < |h.sessions|
  {
    if Seconds(now - h.sessions[i].startedAt) < MinSeconds(h, h.sessions[i].game) then now else Finished(checks, now)
  }

  function PaidFor(i: nat, s: Session): seq<Reward> {
    if s.reward.Some? then [NewReward(GameIssue(i, s.user, s.reward.value.rule, s.reward.value.at))] else []
  }

  /** Ending a session that plays closes it and, if it is rewarded, appends its reward. */
  lemma EndCloses(a: Arcade, i: nat, score: Option<int>, checks: seq<Check>, now: int) returns (s: Session)
    requires i < |a.hall.sessions| && a.hall.sessions[i].status == Playing
    requires a.hall.clock <= now && InOrder(now, checks)
    requires a.hall.sessions[i].reward.None? && End(a, i, score, checks, now).Ok?
    ensures Closing(a.hall, i, s, now, FinishOf(a.hall, i, checks, now))
    ensures var b := End(a, i, score, checks, now).value;
            && b.hall == WithSession(a.hall, i, s, FinishOf(a.hall, i, checks, now))
            && b.tables == a.tables.(rewards := a.tables.rewards + PaidFor(i, s))
    ensures s.reward.Some? ==> s.reward.value.row == |a.tables.rewards|
  {
    s := End(a, i, score, checks, now).value.hall.sessions[i];
    var closed := Closed(a.hall.sessions[i], MinSeconds(a.hall, a.hall.sessions[i].game), score, now);
    assert s.(reward := None) == closed;
    assert a.tables.rewards + [] == a.tables.rewards;
    if s.reward.Some? {
      var k := FindRule(checks, a.hall.sessions, closed);
      assert Passes(a.hall.sessions, closed, checks[k]);
      assert Applies(a.hall.sessions, s, checks[k].rule, checks[k].at);
    }
  }

  // ---------------------------------------------------------------- one session

  /** What a rewarded session fulfils: it ended, was long enough, and met its rule's conditions. */
  predicate Earned(h: Hall, s: Session) {
    s.reward.Some? ==>
      var rule := s.reward.value.rule;
      && s.status == Ended && s.endedAt.Some? && s.endedAt.value <= s.reward.value.at <= h.clock
      && s.duration == Seconds(s.endedAt.value - s.startedAt) >= MinSeconds(h, s.game)
      && rule.active && rule.game == s.game && ConditionsMatch(rule, s.duration, s.score)
  }

  predicate SessionOk(h: Hall, s: Session) {
    && (s.status == Playing <==> s.endedAt.None?)
    && s.startedAt <= h.clock
    && (s.endedAt.Some? ==> s.startedAt <= s.endedAt.value <= h.clock)
    && Earned(h, s)
  }

  ghost predicate SessionsOk(h: Hall) {
    forall i {:trigger h.sessions[i]} | 0 <= i < |h.sessions| :: SessionOk(h, h.sessions[i])
  }

  lemma StartKeepsSessions(h: Hall, user: nat, game: nat, now: int)
    requires SessionsOk(h) && h.clock <= now
    ensures SessionsOk(h.(sessions := h.sessions + [NewSession(user, game, now)], clock := now))
  {
  }

  lemma CloseKeepsSessions(h: Hall, i: nat, s: Session, now: int, finish: int)
    requires SessionsOk(h) && Closing(h, i, s, now, finish)
    ensures SessionsOk(WithSession(h, i, s, finish))
  {
    var g := WithSession(h, i, s, finish);
    assert SessionOk(h, h.sessions[i]);
    forall j | 0 <= j < |g.sessions| ensures SessionOk(g, g.sessions[j]) {
      if j != i {
        assert g.sessions[j] == h.sessions[j];
      }
    }
  }

  // ---------------------------------------------------------------- cooldown

  /** Of two ended sessions of one user and game, the later one is rewarded only if, when its rule was
      looked at, the earlier one had been over for more than the cooldown. */
  predicate Apart(s: Session, r: Session) {
    s.reward.Some? && s.endedAt.Some? && EndedBy(r, s.user, s.game) ==>
      || r.endedAt.value + Cooldown(s.reward.value.rule) < s.reward.value.at
      || (&& s.reward.value.at <= r.endedAt.value
          && (r.reward.Some? ==> s.endedAt.value + Cooldown(r.reward.value.rule) < r.reward.value.at))
  }

  ghost predicate AllApart(h: Hall) {
    forall i, j {:trigger h.sessions[i], h.sessions[j]} | 0 <= i < |h.sessions| && 0 <= j < |h.sessions| && i != j ::
      Apart(h.sessions[i], h.sessions[j])
  }

  lemma StartKeepsApart(h: Hall, user: nat, game: nat, now: int)
    requires AllApart(h)
    ensures AllApart(h.(sessions := h.sessions + [NewSession(user, game, now)], clock := now))
  {
  }

  lemma ClosedSessionIsApart(h: Hall, i: nat, s: Session, now: int, finish: int, j: nat)
    requires SessionsOk(h) && Closing(h, i, s, now, finish) && j < |h.sessions| && j != i
    ensures Apart(s, h.sessions[j]) && Apart(h.sessions[j], s)
  {
    var r := h.sessions[j];
    assert SessionOk(h, r);
    if s.reward.Some? {
      CountZero(h.sessions, EndedSince(s.user, s.game, s.reward.value.at - Cooldown(s.reward.value.rule)), j);
    }
  }

  lemma CloseKeepsApart(h: Hall, i: nat, s: Session, now: int, finish: int)
    requires SessionsOk(h) && AllApart(h) && Closing(h, i, s, now, finish)
    ensures AllApart(WithSession(h, i, s, finish))
  {
    forall j | 0 <= j < |h.sessions| && j != i ensures Apart(s, h.sessions[j]) && Apart(h.sessions[j], s) {
      ClosedSessionIsApart(h, i, s, now, finish, j);
    }
  }

  // ---------------------------------------------------------------- limits per day and month

  predicate RewardedBy(s: Session, user: nat, rule: GameRule) {
    s.user == user && s.reward.Some? && s.reward.value.rule == rule && s.endedAt.Some?
  }

  function RewardedOn(user: nat, rule: GameRule, day: int): Session -> bool {
    (s: Session) => RewardedBy(s, user, rule) && Day(s.endedAt.value) == day
  }

  function RewardedIn(user: nat, rule: GameRule, month: int): Session -> bool {
    (s: Session) => RewardedBy(s, user, rule) && MonthOf(s.endedAt.value) == month
  }

  /** Rewarded sessions whose rule was looked at on the day, or in the month, of their end. */
  function RewardedWithinDay(user: nat, rule: GameRule, day: int): Session -> bool {
    (s: Session) => RewardedBy(s, user, rule) && Day(s.endedAt.value) == day == Day(s.reward.value.at)
  }

  function RewardedWithinMonth(user: nat, rule: GameRule, month: int): Session -> bool {
    (s: Session) => RewardedBy(s, user, rule) && MonthOf(s.endedAt.value) == month == MonthOf(s.reward.value.at)
  }

  /** Sessions that ended on the day, or in the month, and whose rule was looked at after its end. */
  function AcrossDay(day: int): Session -> bool {
    (s: Session) => s.reward.Some? && s.endedAt.Some? && Day(s.endedAt.value) == day != Day(s.reward.value.at)
  }

  function AcrossMonth(month: int): Session -> bool {
    (s: Session) => s.reward.Some? && s.endedAt.Some? && MonthOf(s.endedAt.value) == month != MonthOf(s.reward.value.at)
  }

  ghost predicate WithinLimits(h: Hall, user: nat, rule: GameRule, day: int, month: int) {
    && Count(h.sessions, RewardedWithinDay(user, rule, day)) <= rule.dailyMax
    && Count(h.sessions, RewardedWithinMonth(user, rule, month)) <= rule.monthlyMax
  }

  lemma CloseKeepsLimits(h: Hall, i: nat, s: Session, now: int, finish: int,
                         user: nat, rule: GameRule, day: int, month: int)
    requires SessionsOk(h) && Closing(h, i, s, now, finish) && WithinLimits(h, user, rule, day, month)
    ensures WithinLimits(WithSession(h, i, s, finish), user, rule, day, month)
  {
    CountUpdate(h.sessions, i, s, RewardedWithinDay(user, rule, day));
    CountUpdate(h.sessions, i, s, RewardedWithinMonth(user, rule, month));
    if RewardedBy(s, user, rule) {
      forall j | 0 <= j < |h.sessions| && RewardedBy(h.sessions[j], user, rule)
        ensures EndedBy(h.sessions[j], user, s.game)
      {
        assert SessionOk(h, h.sessions[j]);
      }
      CountImplies(h.sessions, RewardedWithinDay(user, rule, day), EndedOn(user, s.game, day));
      CountImplies(h.sessions, RewardedWithinMonth(user, rule, month), EndedIn(user, s.game, month));
    }
  }

  /** At most one session ends on a day and is looked at after it: the clock has left the day then. */
  ghost predicate OneAcross(h: Hall, day: int, month: int) {
    Count(h.sessions, AcrossDay(day)) <= 1 && Count(h.sessions, AcrossMonth(month)) <= 1
  }

  lemma CloseKeepsAcross(h: Hall, i: nat, s: Session, now: int, finish: int, day: int, month: int)
    requires SessionsOk(h) && Closing(h, i, s, now, finish) && OneAcross(h, day, month)
    ensures OneAcross(WithSession(h, i, s, finish), day, month)
  {
    CountUpdate(h.sessions, i, s, AcrossDay(day));
    CountUpdate(h.sessions, i, s, AcrossMonth(month));
    if AcrossDay(day)(s) {
      forall j | 0 <= j < |h.sessions| ensures !AcrossDay(day)(h.sessions[j]) {
        assert SessionOk(h, h.sessions[j]);
      }
      CountNone(h.sessions, AcrossDay(day));
    }
    if AcrossMonth(month)(s) {
      forall j | 0 <= j < |h.sessions| ensures !AcrossMonth(month)(h.sessions[j]) {
        assert SessionOk(h, h.sessions[j]);
        if AcrossMonth(month)(h.sessions[j]) {
          MonthsAscend(h.sessions[j].endedAt.value, h.sessions[j].reward.value.at);
          MonthsAscend(h.sessions[j].reward.value.at, now);
        }
      }
      CountNone(h.sessions, AcrossMonth(month));
    }
  }

  // ---------------------------------------------------------------- sessions per day

  ghost predicate StartsWithinLimit(h: Hall, user: nat, game: nat, day: int) {
    Count(h.sessions, StartedOn(user, game, day)) <= if game in h.games then h.games[game].maxDailySessions else 0
  }

  lemma StartKeepsStarts(h: Hall, s: Session, today: int, user: nat, game: nat, day: int)
    requires SessionsOk(h) && StartsWithinLimit(h, user, game, day) && h.clock <= today <= s.startedAt
    requires s.game in h.games
    requires Count(h.sessions, StartedOn(s.user, s.game, Day(today))) < h.games[s.game].maxDailySessions
    ensures StartsWithinLimit(h.(sessions := h.sessions + [s], clock := s.startedAt), user, game, day)
  {
    CountAppend(h.sessions, s, StartedOn(user, game, day));
    if StartedOn(user, game, day)(s) && Day(today) != day {
      forall j | 0 <= j < |h.sessions| ensures !StartedOn(user, game, day)(h.sessions[j]) {
        assert SessionOk(h, h.sessions[j]);
      }
      CountNone(h.sessions, StartedOn(user, game, day));
    }
  }

  lemma CloseKeepsStarts(h: Hall, i: nat, s: Session, now: int, finish: int, user: nat, game: nat, day: int)
    requires Closing(h, i, s, now, finish) && StartsWithinLimit(h, user, game, day)
    ensures StartsWithinLimit(WithSession(h, i, s, finish), user, game, day)
  {
    CountUpdate(h.sessions, i, s, StartedOn(user, game, day));
  }

  // ---------------------------------------------------------------- reward rows

  /** A rewarded session's row is a reward for it that pays what the rule says. */
  predicate RowOk(ss: seq<Session>, rs: seq<Reward>, i: nat)
    requires i < |ss|
  {
    ss[i].reward.Some? ==>
      var given := ss[i].reward.value;
      given.row < |rs| && RewardEvolves(NewReward(GameIssue(i, ss[i].user, given.rule, given.at)), rs[given.row])
  }

  /** A reward for a session is that session's one reward. */
  predicate BackOk(ss: seq<Session>, rs: seq<Reward>, r: nat)
    requires r < |rs|
  {
    rs[r].ref.SessionRef? ==>
      var i := rs[r].ref.session;
      i < |ss| && ss[i].reward.Some? && ss[i].reward.value.row == r
  }

  ghost predicate RowsOk(a: Arcade) {
    var ss, rs := a.hall.sessions, a.tables.rewards;
    && (forall i | 0 <= i < |ss| :: RowOk(ss, rs, i))
    && (forall r | 0 <= r < |rs| :: BackOk(ss, rs, r))
  }

  lemma ServiceKeepsRows(a: Arcade, x: Action)
    requires RowsOk(a) && (x.DoIssue? ==> !x.issue.ref.SessionRef?)
    ensures RowsOk(PlayStep(a, Service(x)))
  {
    var ss, t, u := a.hall.sessions, a.tables, Step(a.tables, x);
    StepEvolves(t, x);
    forall i | 0 <= i < |ss| ensures RowOk(ss, u.rewards, i) {
      assert RowOk(ss, t.rewards, i);
    }
    forall r | 0 <= r < |u.rewards| ensures BackOk(ss, u.rewards, r) {
      if r < |t.rewards| {
        assert BackOk(ss, t.rewards, r);
      } else {
        NewRewardsAreIssued(t, x, r);
      }
    }
  }

  lemma StartKeepsRows(a: Arcade, user: nat, game: nat, now: int)
    requires RowsOk(a)
    ensures RowsOk(a.(hall := a.hall.(sessions := a.hall.sessions + [NewSession(user, game, now)], clock := now)))
  {
    var ss, rs := a.hall.sessions, a.tables.rewards;
    var more := ss + [NewSession(user, game, now)];
    forall i | 0 <= i < |more| ensures RowOk(more, rs, i) {
      assert i < |ss| ==> RowOk(ss, rs, i);
    }
    forall r | 0 <= r < |rs| ensures BackOk(more, rs, r) {
      assert BackOk(ss, rs, r);
    }
  }

  lemma CloseKeepsRows(a: Arcade, i: nat, s: Session, now: int, finish: int)
    requires RowsOk(a) && SessionsOk(a.hall) && Closing(a.hall, i, s, now, finish)
    requires s.reward.Some? ==> s.reward.value.row == |a.tables.rewards|
    ensures RowsOk(Arcade(WithSession(a.hall, i, s, finish), a.tables.(rewards := a.tables.rewards + PaidFor(i, s))))
  {
    var ss, was := a.hall.sessions, a.tables.rewards;
    var after, rs := ss[i := s], was + PaidFor(i, s);
    assert SessionOk(a.hall, ss[i]);
    forall j | 0 <= j < |after| ensures RowOk(after, rs, j) {
      assert RowOk(ss, was, j);
    }
    forall r | 0 <= r < |rs| ensures BackOk(after, rs, r) {
      if r < |was| {
        assert BackOk(ss, was, r);
      }
    }
  }

  // ---------------------------------------------------------------- runs

  ghost predicate ArcadeOk(a: Arcade) {
    && SessionsOk(a.hall) && AllApart(a.hall) && RowsOk(a)
    && (forall user, rule, day, month :: WithinLimits(a.hall, user, rule, day, month))
    && (forall day, month :: OneAcross(a.hall, day, month))
    && (forall user, game, day :: StartsWithinLimit(a.hall, user, game, day))
  }

  lemma StartKeepsArcade(a: Arcade, user: nat, game: nat, enabled: bool, available: bool, today: int, now: int)
    requires ArcadeOk(a) && a.hall.clock <= today <= now
    requires Start(a.hall, user, game, enabled, available, today, now).Ok?
    ensures ArcadeOk(PlayStep(a, StartSession(user, game, enabled, available, today, now)))
  {
    hide SessionsOk, AllApart, RowsOk;
    var h := a.hall;
    var s := NewSession(user, game, now);
    StartKeepsSessions(h, user, game, now);
    StartKeepsApart(h, user, game, now);
    StartKeepsRows(a, user, game, now);
    var g := h.(sessions := h.sessions + [s], clock := now);
    forall u, rule, day, month ensures WithinLimits(g, u, rule, day, month) {
      assert WithinLimits(h, u, rule, day, month);
      CountAppend(h.sessions, s, RewardedWithinDay(u, rule, day));
      CountAppend(h.sessions, s, RewardedWithinMonth(u, rule, month));
    }
    forall day, month ensures OneAcross(g, day, month) {
      assert OneAcross(h, day, month);
      CountAppend(h.sessions, s, AcrossDay(day));
      CountAppend(h.sessions, s, AcrossMonth(month));
    }
    forall u, o, day ensures StartsWithinLimit(g, u, o, day) {
      assert StartsWithinLimit(h, u, o, day);
      StartKeepsStarts(h, s, today, u, o, day);
    }
  }

  lemma EndKeepsArcade(a: Arcade, i: nat, score: Option<int>, checks: seq<Check>, now: int)
    requires ArcadeOk(a) && a.hall.clock <= now && InOrder(now, checks) && End(a, i, score, checks, now).Ok?
    ensures ArcadeOk(End(a, i, score, checks, now).value)
  {
    hide AllApart, RowsOk, WithinLimits, OneAcross, StartsWithinLimit, Closing, Awarded;
    var h := a.hall;
    if h.sessions[i].status == Playing {
      assert SessionOk(h, h.sessions[i]);
      var s := EndCloses(a, i, score, checks, now);
      var finish := FinishOf(h, i, checks, now);
      CloseKeepsSessions(h, i, s, now, finish);
      CloseKeepsApart(h, i, s, now, finish);
      CloseKeepsRows(a, i, s, now, finish);
      forall u, rule, day, month ensures WithinLimits(WithSession(h, i, s, finish), u, rule, day, month) {
        CloseKeepsLimits(h, i, s, now, finish, u, rule, day, month);
      }
      forall day, month ensures OneAcross(WithSession(h, i, s, finish), day, month) {
        CloseKeepsAcross(h, i, s, now, finish, day, month);
      }
      forall u, o, day ensures StartsWithinLimit(WithSession(h, i, s, finish), u, o, day) {
        CloseKeepsStarts(h, i, s, now, finish, u, o, day);
      }
    }
  }

  lemma StepKeepsArcade(a: Arcade, e: Event)
    requires ArcadeOk(a) && ProperEvent(a, e)
    ensures ArcadeOk(PlayStep(a, e))
  {
    match e
    case StartSession(user, game, enabled, available, today, now) =>
      if Start(a.hall, user, game, enabled, available, today, now).Ok? {
        StartKeepsArcade(a, user, game, enabled, available, today, now);
      }
    case EndSession(i, score, checks, now) =>
      if End(a, i, score, checks, now).Ok? {
        EndKeepsArcade(a, i, score, checks, now);
      }
    case Service(x) => ServiceKeepsRows(a, x);
  }

  lemma ProperRunPrefix(a: Arcade, es: seq<Event>, n: nat)
    requires ProperRun(a, es) && n <= |es|
    ensures ProperRun(a, es[..n])
  {
    forall m | 0 <= m < n ensures ProperEvent(PlayRun(a, es[..n][..m]), es[..n][m]) {
      assert es[..n][..m] == es[..m];
    }
  }

  lemma {:induction false} RunKeepsArcade(a: Arcade, es: seq<Event>)
    requires Unplayed(a) && ProperRun(a, es)
    ensures ArcadeOk(PlayRun(a, es))
  {
    if es != [] {
      var n := |es| - 1;
      ProperRunPrefix(a, es, n);
      RunKeepsArcade(a, es[..n]);
      StepKeepsArcade(PlayRun(a, es[..n]), es[n]);
    }
  }

  /** A session that was too short gets nothing.  Any other is rewarded under the first rule that is
      not passed over, with the amounts of that rule, and not rewarded without such a rule; the call
      raises exactly when that rule pays nothing. */
  ghost predicate RightOutcome(before: Arcade, i: nat, score: Option<int>, checks: seq<Check>, now: int,
                               outcome: Result<Arcade, Refusal>)
    requires i < |before.hall.sessions|
  {
    var s, games := before.hall.sessions[i], before.hall.games;
    if s.game in games && Played(s, now) < games[s.game].minSeconds then
      && outcome.Ok? && i < |outcome.value.hall.sessions|
      && outcome.value.hall.sessions[i].status == Invalidated && outcome.value.hall.sessions[i].reward.None?
    else
      var e := s.(status := Ended, endedAt := Some(now), duration := Played(s, now), score := score);
      exists k :: FirstRule(before.hall.sessions, e, checks, k) && Rewarded(before, i, checks, k, outcome)
  }

  /** Whenever a session is ended on some run, its outcome is the right one. */
  lemma EndOutcome(a: Arcade, es: seq<Event>, i: nat, score: Option<int>, checks: seq<Check>, now: int)
    requires Unplayed(a) && ProperRun(a, es)
    requires i < |PlayRun(a, es).hall.sessions| && PlayRun(a, es).hall.sessions[i].status == Playing
    ensures RightOutcome(PlayRun(a, es), i, score, checks, now, End(PlayRun(a, es), i, score, checks, now))
  {
    hide RightOutcome, End;
    RunKeepsArcade(a, es);
    var before := PlayRun(a, es);
    assert SessionOk(before.hall, before.hall.sessions[i]);
    NeverClaimed(before, i);
    OutcomeFollows(before, i, score, checks, now);
  }

  lemma OutcomeFollows(before: Arcade, i: nat, score: Option<int>, checks: seq<Check>, now: int)
    requires i < |before.hall.sessions| && before.hall.sessions[i].status == Playing
    requires before.hall.sessions[i].reward.None?
    requires !Claimed(before.tables.rewards, before.hall.sessions[i].user, RewardMath.Source.Game, SessionRef(i))
    ensures RightOutcome(before, i, score, checks, now, End(before, i, score, checks, now))
  {
    hide EndedUnder, FirstRule, Played, End, Claimed, Rewarded;
    var s, games, outcome := before.hall.sessions[i], before.hall.games, End(before, i, score, checks, now);
    EndIsAnswered(before, i, score, checks, now);
    if !(s.game in games && Played(s, now) < games[s.game].minSeconds) {
      var e := s.(status := Ended, endedAt := Some(now), duration := Played(s, now), score := score);
      var r := if outcome.Ok? then Ok(outcome.value.hall.sessions[i]) else Err(outcome.error);
      var u := if outcome.Ok? then outcome.value else before;
      var k :| FirstRule(before.hall.sessions, e, checks, k) && EndedUnder(before, i, score, checks, now, k, r, u);
      UnderIsRewarded(before, i, score, checks, now, k, r, u, outcome);
    }
  }

  /** The session is rewarded under rule `k`, or there is none, or the rule pays nothing. */
  ghost predicate Rewarded(before: Arcade, i: nat, checks: seq<Check>, k: nat, outcome: Result<Arcade, Refusal>) {
    if k >= |checks| then
      outcome.Ok? && i < |outcome.value.hall.sessions| && outcome.value.hall.sessions[i].reward.None?
    else if PaysCash(checks[k].rule) <= 0 && PaysPoints(checks[k].rule) <= 0 then
      outcome == Err(NotRewarded(ZeroReward))
    else outcome.Ok? && RewardedUnder(before, i, checks[k], outcome.value)
  }

  lemma UnderIsRewarded(before: Arcade, i: nat, score: Option<int>, checks: seq<Check>, now: int, k: nat,
                        r: Result<Session, Refusal>, u: Arcade, outcome: Result<Arcade, Refusal>)
    requires i < |before.hall.sessions| && before.hall.sessions[i].reward.None?
    requires !Claimed(before.tables.rewards, before.hall.sessions[i].user, RewardMath.Source.Game, SessionRef(i))
    requires EndedUnder(before, i, score, checks, now, k, r, u)
    requires if r.Ok? then outcome == Ok(u) else outcome == Err(r.error)
    ensures Rewarded(before, i, checks, k, outcome)
  {
  }

  lemma NeverClaimed(b: Arcade, i: nat)
    requires RowsOk(b) && i < |b.hall.sessions| && b.hall.sessions[i].reward.None?
    ensures !Claimed(b.tables.rewards, b.hall.sessions[i].user, RewardMath.Source.Game, SessionRef(i))
  {
    forall r | 0 <= r < |b.tables.rewards|
      ensures !Claims(b.tables.rewards[r], b.hall.sessions[i].user, RewardMath.Source.Game, SessionRef(i))
    {
      assert BackOk(b.hall.sessions, b.tables.rewards, r);
    }
  }

  /** On every run, a session has one reward row at most; it has one exactly if it was rewarded, and
      then it ended, was long enough by the clock, met the rule's conditions, and pays the rule's amount. */
  lemma RewardedOnceAndEarned(a: Arcade, es: seq<Event>, i: nat)
    requires Unplayed(a) && ProperRun(a, es) && i < |PlayRun(a, es).hall.sessions|
    ensures var b := PlayRun(a, es);
            var s := b.hall.sessions[i];
            && (forall r | 0 <= r < |b.tables.rewards| ::
                  b.tables.rewards[r].ref == SessionRef(i) <==> s.reward.Some? && s.reward.value.row == r)
            && (s.reward.Some? ==>
                  && s.status == Ended && s.endedAt.Some?
                  && s.endedAt.value - s.startedAt >= MinSeconds(b.hall, s.game) * MICROS_PER_SECOND
                  && s.reward.value.row < |b.tables.rewards|
                  && var rule, r := s.reward.value.rule, b.tables.rewards[s.reward.value.row];
                     && rule.active && rule.game == s.game
                     && (rule.minScore.Some? ==> s.score.Some? && s.score.value >= rule.minScore.value)
                     && (rule.minDuration.Some? ==>
                           s.endedAt.value - s.startedAt >= rule.minDuration.value * MICROS_PER_SECOND)
                     && r.user == s.user && r.source == RewardMath.Source.Game && r.currency == PKR
                     && r.cash == PaysCash(rule) && r.points == PaysPoints(rule))
  {
    RunKeepsArcade(a, es);
    var b := PlayRun(a, es);
    assert SessionOk(b.hall, b.hall.sessions[i]);
    assert RowOk(b.hall.sessions, b.tables.rewards, i);
    forall r | 0 <= r < |b.tables.rewards|
      ensures b.tables.rewards[r].ref == SessionRef(i) <==>
              b.hall.sessions[i].reward.Some? && b.hall.sessions[i].reward.value.row == r
    {
      assert BackOk(b.hall.sessions, b.tables.rewards, r);
    }
  }

  /** On every run, a session is rewarded under a rule only if each other ended session of its user and
      game had been over for more than the cooldown when the rule was looked at, or ended later.  So
      sessions that ended before are more than the cooldown older, up to the time that passed between
      the end and the look at the rule; and where no time passed, rewarded sessions never tie. */
  lemma CooldownHolds(a: Arcade, es: seq<Event>, i: nat, j: nat)
    requires Unplayed(a) && ProperRun(a, es)
    requires i < |PlayRun(a, es).hall.sessions| && j < |PlayRun(a, es).hall.sessions| && i != j
    ensures var ss := PlayRun(a, es).hall.sessions;
            ss[i].reward.Some? && EndedBy(ss[j], ss[i].user, ss[i].game) ==>
              var given, end, other := ss[i].reward.value, ss[i].endedAt, ss[j].endedAt.value;
              && end.Some? && end.value <= given.at
              && (other + Cooldown(given.rule) < given.at || given.at <= other)
              && (other < end.value ==> other + Cooldown(given.rule) < end.value + (given.at - end.value))
              && (ss[j].reward.Some? && given.at == end.value && ss[j].reward.value.at == other ==> other != end.value)
  {
    RunKeepsArcade(a, es);
    var h := PlayRun(a, es).hall;
    assert SessionOk(h, h.sessions[i]) && SessionOk(h, h.sessions[j]);
    assert Apart(h.sessions[i], h.sessions[j]);
  }

  /** The same by the order of the calls, so that equal clock readings do not matter: when a call
      rewards a session, all of that user's sessions of the game that were ended before have been over
      for more than the rule's cooldown. */
  lemma CooldownAtEveryReward(a: Arcade, es: seq<Event>, i: nat)
    requires es != [] && Unplayed(a) && ProperRun(a, es)
    requires i < |PlayRun(a, es).hall.sessions| && PlayRun(a, es).hall.sessions[i].reward.Some?
    requires var ss := PlayRun(a, es[..|es| - 1]).hall.sessions; i < |ss| ==> ss[i].reward.None?
    ensures var before, s := PlayRun(a, es[..|es| - 1]).hall.sessions, PlayRun(a, es).hall.sessions[i];
            forall j | 0 <= j < |before| && EndedBy(before[j], s.user, s.game) ::
              before[j].endedAt.value + Cooldown(s.reward.value.rule) < s.reward.value.at
  {
    hide PlayStep, ArcadeOk, Unplayed;
    var n := |es| - 1;
    ProperRunPrefix(a, es, n);
    RunKeepsArcade(a, es[..n]);
    RewardedAfterCooldown(PlayRun(a, es[..n]), es[n], i);
  }

  lemma RewardedAfterCooldown(a: Arcade, e: Event, i: nat)
    requires ArcadeOk(a) && ProperEvent(a, e)
    requires i < |PlayStep(a, e).hall.sessions| && PlayStep(a, e).hall.sessions[i].reward.Some?
    requires i < |a.hall.sessions| ==> a.hall.sessions[i].reward.None?
    ensures var before, s := a.hall.sessions, PlayStep(a, e).hall.sessions[i];
            forall j | 0 <= j < |before| && EndedBy(before[j], s.user, s.game) ::
              before[j].endedAt.value + Cooldown(s.reward.value.rule) < s.reward.value.at
  {
    hide ArcadeOk;
    var before := a.hall.sessions;
    RewardingStepIsEnd(a, e, i);
    var s := EndCloses(a, i, e.score, e.checks, e.now);
    assert s == PlayStep(a, e).hall.sessions[i];
    forall j | 0 <= j < |before| && EndedBy(before[j], s.user, s.game)
      ensures before[j].endedAt.value + Cooldown(s.reward.value.rule) < s.reward.value.at
    {
      CountZero(before, EndedSince(s.user, s.game, s.reward.value.at - Cooldown(s.reward.value.rule)), j);
    }
  }

  /** Only ending a session rewards it. */
  lemma RewardingStepIsEnd(a: Arcade, e: Event, i: nat)
    requires i < |PlayStep(a, e).hall.sessions| && PlayStep(a, e).hall.sessions[i].reward.Some?
    requires i < |a.hall.sessions| ==> a.hall.sessions[i].reward.None?
    ensures e.EndSession? && e.session == i && i < |a.hall.sessions| && a.hall.sessions[i].status == Playing
    ensures End(a, i, e.score, e.checks, e.now).Ok?
  {
    hide Passes, FindClaim;
  }

  /** On every run, the sessions of a user that end on a day and are rewarded under a rule by the end of
      it are at most `daily_max`; at most one more is rewarded after midnight.  Likewise for a month and
      `monthly_max`.  A user starts a game at most `max_daily_sessions` times a day. */
  lemma GameLimitsHold(a: Arcade, es: seq<Event>, user: nat, rule: GameRule, game: nat, day: int, month: int)
    requires Unplayed(a) && ProperRun(a, es)
    ensures var h := PlayRun(a, es).hall;
            && Count(h.sessions, RewardedWithinDay(user, rule, day)) <= rule.dailyMax
            && Count(h.sessions, RewardedWithinMonth(user, rule, month)) <= rule.monthlyMax
            && Count(h.sessions, AcrossDay(day)) <= 1 && Count(h.sessions, AcrossMonth(month)) <= 1
            && Count(h.sessions, RewardedOn(user, rule, day)) <= rule.dailyMax + Count(h.sessions, AcrossDay(day))
            && Count(h.sessions, RewardedIn(user, rule, month))
               <= rule.monthlyMax + Count(h.sessions, AcrossMonth(month))
            && (game in h.games ==> Count(h.sessions, StartedOn(user, game, day)) <= h.games[game].maxDailySessions)
  {
    hide SessionsOk, AllApart, RowsOk;
    RunKeepsArcade(a, es);
    var h := PlayRun(a, es).hall;
    assert WithinLimits(h, user, rule, day, month);
    assert OneAcross(h, day, month);
    assert StartsWithinLimit(h, user, game, day);
    CountCovered(h.sessions, RewardedOn(user, rule, day), RewardedWithinDay(user, rule, day), AcrossDay(day));
    CountCovered(h.sessions, RewardedIn(user, rule, month), RewardedWithinMonth(user, rule, month), AcrossMonth(month));
  }

  /** When a call rewards a session, the limit of the day, or month, in which the session ended is
      passed exactly if the rule was looked at after that day, or month, and the limit was used up. */
  lemma LimitsPassedIff(a: Arcade, es: seq<Event>, i: nat)
    requires es != [] && Unplayed(a) && ProperRun(a, es)
    requires i < |PlayRun(a, es).hall.sessions| && PlayRun(a, es).hall.sessions[i].reward.Some?
    requires var ss := PlayRun(a, es[..|es| - 1]).hall.sessions; i < |ss| ==> ss[i].reward.None?
    ensures var before, after := PlayRun(a, es[..|es| - 1]).hall.sessions, PlayRun(a, es).hall.sessions;
            PassesLimitsIff(before, after, after[i])
  {
    hide PlayStep, ArcadeOk, Unplayed, PassesLimitsIff;
    var n := |es| - 1;
    ProperRunPrefix(a, es, n);
    RunKeepsArcade(a, es[..n]);
    RewardPassesLimitsIff(PlayRun(a, es[..n]), es[n], i);
  }

  ghost predicate PassesLimitsIff(before: seq<Session>, after: seq<Session>, s: Session) {
    && s.reward.Some? && s.endedAt.Some?
    && var rule, end, at := s.reward.value.rule, s.endedAt.value, s.reward.value.at;
       && (Count(after, RewardedOn(s.user, rule, Day(end))) > rule.dailyMax <==>
             Day(end) < Day(at) && Count(before, RewardedOn(s.user, rule, Day(end))) == rule.dailyMax)
       && (Count(after, RewardedIn(s.user, rule, MonthOf(end))) > rule.monthlyMax <==>
             MonthOf(end) < MonthOf(at) && Count(before, RewardedIn(s.user, rule, MonthOf(end))) == rule.monthlyMax)
  }

  lemma RewardPassesLimitsIff(a: Arcade, e: Event, i: nat)
    requires ArcadeOk(a) && ProperEvent(a, e)
    requires i < |PlayStep(a, e).hall.sessions| && PlayStep(a, e).hall.sessions[i].reward.Some?
    requires i < |a.hall.sessions| ==> a.hall.sessions[i].reward.None?
    ensures PassesLimitsIff(a.hall.sessions, PlayStep(a, e).hall.sessions, PlayStep(a, e).hall.sessions[i])
  {
    hide PassesLimitsIff;
    RewardingStepIsEnd(a, e, i);
    var s := EndCloses(a, i, e.score, e.checks, e.now);
    assert s == PlayStep(a, e).hall.sessions[i];
    ClosingPassesLimitsIff(a.hall, i, s, e.now, FinishOf(a.hall, i, e.checks, e.now));
  }

  lemma ClosingPassesLimitsIff(h: Hall, i: nat, s: Session, now: int, finish: int)
    requires SessionsOk(h) && (forall user, rule, day, month :: WithinLimits(h, user, rule, day, month))
    requires Closing(h, i, s, now, finish) && s.reward.Some?
    ensures PassesLimitsIff(h.sessions, h.sessions[i := s], s)
  {
    var rule, at := s.reward.value.rule, s.reward.value.at;
    var day, month := Day(now), MonthOf(now);
    assert SessionOk(h, h.sessions[i]);
    assert WithinLimits(h, s.user, rule, day, month);
    AllWithinSoFar(h, s.user, rule, now);
    CountUpdate(h.sessions, i, s, RewardedOn(s.user, rule, day));
    CountUpdate(h.sessions, i, s, RewardedIn(s.user, rule, month));
    CountUpdate(h.sessions, i, s, EndedOn(s.user, s.game, day));
    MonthsAscend(now, at);
    forall j | 0 <= j < |h.sessions| && RewardedBy(h.sessions[j], s.user, rule)
      ensures EndedBy(h.sessions[j], s.user, s.game)
    {
      assert SessionOk(h, h.sessions[j]);
    }
    CountImplies(h.sessions, RewardedOn(s.user, rule, day), EndedOn(s.user, s.game, day));
    CountImplies(h.sessions, RewardedIn(s.user, rule, month), EndedIn(s.user, s.game, month));
  }

  /** All rules were looked at by now, so none was after the present day or month. */
  lemma AllWithinSoFar(h: Hall, user: nat, rule: GameRule, now: int)
    requires SessionsOk(h) && h.clock <= now
    ensures Count(h.sessions, RewardedOn(user, rule, Day(now)))
         <= Count(h.sessions, RewardedWithinDay(user, rule, Day(now)))
    ensures Count(h.sessions, RewardedIn(user, rule, MonthOf(now)))
         <= Count(h.sessions, RewardedWithinMonth(user, rule, MonthOf(now)))
  {
    forall j | 0 <= j < |h.sessions| && RewardedBy(h.sessions[j], user, rule)
      ensures RewardedOn(user, rule, Day(now))(h.sessions[j]) ==>
                RewardedWithinDay(user, rule, Day(now))(h.sessions[j])
      ensures RewardedIn(user, rule, MonthOf(now))(h.sessions[j]) ==>
                RewardedWithinMonth(user, rule, MonthOf(now))(h.sessions[j])
    {
      assert SessionOk(h, h.sessions[j]);
      var end, at := h.sessions[j].endedAt.value, h.sessions[j].reward.value.at;
      MonthsAscend(end, at);
      MonthsAscend(at, now);
    }
    CountImplies(h.sessions, RewardedOn(user, rule, Day(now)), RewardedWithinDay(user, rule, Day(now)));
    CountImplies(h.sessions, RewardedIn(user, rule, MonthOf(now)), RewardedWithinMonth(user, rule, MonthOf(now)));
  }

  // ---------------------------------------------------------------- what can happen all the same

  function OneGame(minSeconds: nat): Arcade {
    Arcade(Hall(map[0 := Game(minSeconds, 20)], [], 0), Fresh(map[]))
  }

  function PointsRule(points: int, cooldownHours: nat, dailyMax: nat): GameRule {
    GameRule(0, 0, true, None, None, InPoints, points, 0, cooldownHours, dailyMax, 100)
  }

  /** A rule of no points makes the end of a session raise. */
  lemma EmptyRuleRaises()
    ensures var a, es := OneGame(30), [StartSession(0, 0, true, true, 0, 0)];
            && Unplayed(a) && ProperRun(a, es)
            && var now := 60 * MICROS_PER_SECOND;
               End(PlayRun(a, es), 0, None, [Check(PointsRule(0, 0, 5), now)], now) == Err(NotRewarded(ZeroReward))
  {
    hide Available, MonthOf;
    var a, es := OneGame(30), [StartSession(0, 0, true, true, 0, 0)];
    var rule, now := PointsRule(0, 0, 5), 60 * MICROS_PER_SECOND;
    var s := NewSession(0, 0, 0);
    assert es[..0] == [];
    assert PlayRun(a, es) == a.(hall := a.hall.(sessions := [s]));
    var checks := [Check(rule, now)];
    assert checks[..0] == [];
    NothingRecent([s], rule, now);
    assert Passes([s], Closed(s, 30, None, now), checks[0]);
    assert FindRule(checks, [s], Closed(s, 30, None, now)) == 0;
  }

  /** Two sessions start together; the first ends at once, the second at `end`, and its rule is looked
      at at `at`. */
  function TwoEnds(rule: GameRule, end: int, at: int): seq<Event> {
    [StartSession(0, 0, true, true, 0, 0), StartSession(0, 0, true, true, 0, 0),
     EndSession(0, None, [Check(rule, 0)], 0), EndSession(1, None, [Check(rule, at)], end)]
  }

  function RewardedSession(rule: GameRule, row: nat, end: int, at: int): Session {
    NewSession(0, 0, 0).(status := Ended, endedAt := Some(end), duration := Seconds(end),
                         reward := Some(Given(rule, row, at)))
  }

  lemma NothingRecent(ss: seq<Session>, rule: GameRule, at: int)
    requires |ss| < 100 == rule.monthlyMax && rule.dailyMax > 0
    requires forall j | 0 <= j < |ss| && EndedBy(ss[j], 0, 0) ::
               && ss[j].endedAt.value + Cooldown(rule) < at
               && (Day(ss[j].endedAt.value) == Day(at) ==> |ss| < rule.dailyMax)
    ensures Available(ss, 0, 0, rule, at)
  {
    hide MonthOf;
    CountNone(ss, EndedSince(0, 0, at - Cooldown(rule)));
    CountBound(ss, EndedOn(0, 0, Day(at)));
    CountBound(ss, EndedIn(0, 0, MonthOf(at)));
    if |ss| >= rule.dailyMax {
      CountNone(ss, EndedOn(0, 0, Day(at)));
    }
  }

  lemma OneRuleRewards(a: Arcade, i: nat, rule: GameRule, end: int, at: int)
    requires i < |a.hall.sessions| && a.hall.sessions[i] == NewSession(0, 0, 0) && MinSeconds(a.hall, 0) == 0
    requires Available(a.hall.sessions, 0, 0, rule, at)
    requires rule == PointsRule(5, rule.cooldownHours, rule.dailyMax)
    requires FindClaim(a.tables.rewards, 0, RewardMath.Source.Game, SessionRef(i)) < 0
    ensures var row := |a.tables.rewards|;
            End(a, i, None, [Check(rule, at)], end) == Ok(Arcade(
              WithSession(a.hall, i, RewardedSession(rule, row, end, at), at),
              a.tables.(rewards := a.tables.rewards + [NewReward(GameIssue(i, 0, rule, at))])))
  {
    hide Available, FindClaim;
    var checks := [Check(rule, at)];
    var s := Closed(a.hall.sessions[i], 0, None, end);
    assert checks[..0] == [];
    assert Passes(a.hall.sessions, s, checks[0]);
    assert FindRule(checks, a.hall.sessions, s) == 0;
  }

  function BothPlaying(): Arcade {
    OneGame(0).(hall := OneGame(0).hall.(sessions := [NewSession(0, 0, 0), NewSession(0, 0, 0)]))
  }

  lemma BothStarted(rule: GameRule, end: int, at: int)
    ensures var a, es := OneGame(0), TwoEnds(rule, end, at);
            && PlayRun(a, es[..2]) == BothPlaying()
            && ProperEvent(PlayRun(a, es[..0]), es[0]) && ProperEvent(PlayRun(a, es[..1]), es[1])
  {
    var a, es, s := OneGame(0), TwoEnds(rule, end, at), NewSession(0, 0, 0);
    assert Count([s], StartedOn(0, 0, 0)) == 1;
    assert es[..2][..1] == es[..1] && es[..1][..0] == [];
    assert PlayRun(a, es[..1]) == a.(hall := a.hall.(sessions := [s]));
  }

  lemma BothRewarded(rule: GameRule, end: int, at: int)
    requires 0 <= end <= at && Cooldown(rule) < at
    requires rule == PointsRule(5, rule.cooldownHours, rule.dailyMax) && 0 < rule.dailyMax
    requires Day(at) == 0 ==> 2 < rule.dailyMax
    ensures Unplayed(OneGame(0)) && ProperRun(OneGame(0), TwoEnds(rule, end, at))
    ensures PlayRun(OneGame(0), TwoEnds(rule, end, at)).hall.sessions
         == [RewardedSession(rule, 0, 0, 0), RewardedSession(rule, 1, end, at)]
  {
    hide End, Start, Available, MonthOf;
    var a, es := OneGame(0), TwoEnds(rule, end, at);
    var a2 := BothPlaying();
    BothStarted(rule, end, at);
    NothingRecent(a2.hall.sessions, rule, 0);
    OneRuleRewards(a2, 0, rule, 0, 0);
    var a3 := PlayStep(a2, es[2]);
    assert es[..3][..2] == es[..2];
    assert a3.hall.sessions == [RewardedSession(rule, 0, 0, 0), NewSession(0, 0, 0)];
    NothingRecent(a3.hall.sessions, rule, at);
    OneRuleRewards(a3, 1, rule, end, at);
    assert es[..4] == es && es[..3] == es[..4][..3];
  }

  /** With a limit of one reward a day, two sessions that ended on one day are both rewarded. */
  lemma MidnightPassesDailyLimit()
    ensures var a, rule, end := OneGame(0), PointsRule(5, 0, 1), MICROS_PER_DAY - 1;
            var es := TwoEnds(rule, end, MICROS_PER_DAY);
            && Unplayed(a) && ProperRun(a, es)
            && Count(PlayRun(a, es).hall.sessions, RewardedOn(0, rule, 0)) == 2
  {
    var rule, end := PointsRule(5, 0, 1), MICROS_PER_DAY - 1;
    BothRewarded(rule, end, MICROS_PER_DAY);
    assert Count([RewardedSession(rule, 0, 0, 0)], RewardedOn(0, rule, 0)) == 1;
  }

  /** With a cooldown of one hour, two sessions that ended exactly one hour apart are both rewarded,
      which no single reading of the clock would allow. */
  lemma CooldownMeasuredLate()
    ensures var a, rule := OneGame(0), PointsRule(5, 1, 5);
            var es := TwoEnds(rule, MICROS_PER_HOUR, MICROS_PER_HOUR + 1);
            && Unplayed(a) && ProperRun(a, es)
            && var ss := PlayRun(a, es).hall.sessions;
               && |ss| == 2 && ss[0].reward.Some? && ss[1].reward.Some? && ss[0].endedAt.Some? && ss[1].endedAt.Some?
               && ss[1].endedAt.value - ss[0].endedAt.value == Cooldown(rule)
  {
    BothRewarded(PointsRule(5, 1, 5), MICROS_PER_HOUR, MICROS_PER_HOUR + 1);
  }
}
