/** The game services as a database that is changed step by step (apps/games/services.py). */
module GameHalls {
  import opened Calendar
  import opened Outcomes
  import opened Decimals
  import RewardMath
  import opened Sums
  import opened MoneyTables
  import opened Platforms
  import opened Spec = Games
  import opened GameContracts

  class GameHall {
    const platform: Platform
    const games: map<nat, Spec.Game>
    var sessions: seq<Session>
    ghost var clock: int

    ghost function H(): Hall
      reads this
    {
      Hall(games, sessions, clock)
    }

    ghost function A(): Arcade
      reads this, platform
    {
      Arcade(H(), platform.T())
    }

    ghost predicate Valid()
      reads this, platform, platform.store
    {
      platform.Valid()
    }

    constructor (platform: Platform, games: map<nat, Spec.Game>)
      requires platform.Valid()
      ensures Valid() && this.platform == platform
      ensures A() == Arcade(Hall(games, [], 0), platform.T())
    {
      this.platform, this.games, sessions, clock := platform, games, [], 0;
    }

    // -------------------------------------------------------------- sessions

    method CountStarts(user: nat, game: nat, day: int) returns (n: nat)
      ensures n == Count(sessions, StartedOn(user, game, day))
    {
      n := 0;
      for i := 0 to |sessions|
        invariant n == Count(sessions[..i], StartedOn(user, game, day))
      {
        assert sessions[..i + 1][..i] == sessions[..i];
        if sessions[i].user == user && sessions[i].game == game && Day(sessions[i].startedAt) == day {
          n := n + 1;
        }
      }
      assert sessions[..|sessions|] == sessions;
    }

    /** `start_session` */
    method StartSession(user: nat, game: nat, enabled: bool, available: bool, today: int, now: int)
        returns (r: Result<nat, Refusal>)
      modifies this
      ensures match Start(old(H()), user, game, enabled, available, today, now) {
                case Ok(h) => r == Ok(old(|sessions|)) && H() == h
                case Err(e) => r == Err(e) && H() == old(H())
              }
      ensures StartAnswers(old(H()), user, game, enabled, available, today, now, r, H())
    {
      hide StartAnswers;
      StartIsAnswered(H(), user, game, enabled, available, today, now);
      if !enabled {
        return Err(GamesDisabled);
      }
      if game !in games || !available {
        return Err(NotAvailable);
      }
      var started := CountStarts(user, game, Day(today));
      if started >= games[game].maxDailySessions {
        return Err(DailyLimit);
      }
      sessions := sessions + [NewSession(user, game, now)];
      clock := now;
      return Ok(|sessions| - 1);
    }

    // -------------------------------------------------------------- rule availability

    /** `_rule_available`: three queries over the other sessions, of which `was` tells the same. */
    method RuleAvailable(i: nat, rule: GameRule, now: int, ghost was: seq<Session>) returns (ok: bool)
      requires i < |sessions| && |was| == |sessions| && was[i].status != Ended && sessions == was[i := sessions[i]]
      ensures ok <==> Available(was, sessions[i].user, sessions[i].game, rule, now)
      ensures var user, game := sessions[i].user, sessions[i].game;
              ok <==> && !EndedAfter(was, user, game, now - rule.cooldownHours * 3600000000)
                      && |EndedThatDay(was, user, game, now)| < rule.dailyMax
                      && |EndedThatMonth(was, user, game, now)| < rule.monthlyMax
    {
      var s := sessions[i];
      var from := now - Cooldown(rule);
      var recent, daily, monthly := 0, 0, 0;
      for j := 0 to |sessions|
        invariant recent == Count(was[..j], EndedSince(s.user, s.game, from))
        invariant daily == Count(was[..j], EndedOn(s.user, s.game, Day(now)))
        invariant monthly == Count(was[..j], EndedIn(s.user, s.game, MonthOf(now)))
      {
        assert was[..j + 1][..j] == was[..j];
        if j != i && EndedBy(sessions[j], s.user, s.game) {
          var ended := sessions[j].endedAt.value;
          recent := recent + (if ended >= from then 1 else 0);
          daily := daily + (if Day(ended) == Day(now) then 1 else 0);
          monthly := monthly + (if MonthOf(ended) == MonthOf(now) then 1 else 0);
        }
      }
      assert was[..|was|] == was;
      CountsAreEnded(was, s.user, s.game, now, from);
      return recent == 0 && daily < rule.dailyMax && monthly < rule.monthlyMax;
    }

    /** The loop over the rules in order of priority; it stops at the first one that applies. */
    method PickRule(i: nat, checks: seq<Check>, ghost was: seq<Session>) returns (k: int)
      requires i < |sessions| && |was| == |sessions| && was[i].status != Ended && sessions == was[i := sessions[i]]
      ensures k == FindRule(checks, was, sessions[i])
      ensures FirstRule(was, sessions[i], checks, if k < 0 then |checks| else k)
    {
      var s := sessions[i];
      assert checks[..|checks|] == checks;
      k := -1;
      for n := 0 to |checks|
        invariant k == FindRule(checks[..n], was, s)
      {
        assert checks[..n + 1][..n] == checks[..n];
        var rule := checks[n].rule;
        if k < 0 && rule.active && rule.game == s.game && ConditionsMatch(rule, s.duration, s.score) {
          var available := RuleAvailable(i, rule, checks[n].at, was);
          if available {
            k := n;
          }
        }
      }
      var _ := FoundRule(checks, was, s);
    }

    // -------------------------------------------------------------- ending

    /** `end_session` */
    method EndSession(i: nat, score: Option<int>, checks: seq<Check>, now: int) returns (r: Result<Session, Refusal>)
      requires Valid()
      modifies this, platform, platform.store
      ensures Valid()
      ensures match End(old(A()), i, score, checks, now) {
                case Ok(b) => A() == b && i < |sessions| && r == Ok(sessions[i])
                case Err(e) => r == Err(e) && A() == old(A()) && platform.store.View() == old(platform.store.View())
              }
      ensures EndAnswers(old(A()), i, score, checks, now, r, A())
    {
      hide Awarded, Platform.Valid, EndAnswers;
      EndIsAnswered(A(), i, score, checks, now);
      if i >= |sessions| {
        return Err(NoSession);
      }
      var s := sessions[i];
      if s.status != Playing {
        return Ok(s);
      }
      var duration := Seconds(now - s.startedAt);
      s := s.(endedAt := Some(now), duration := duration, score := score);
      var minimum := if s.game in games then games[s.game].minSeconds else 0;
      if duration < minimum {
        SaveSession(i, s.(status := Invalidated), now);
        return Ok(sessions[i]);
      }
      r := AwardBest(i, s.(status := Ended), checks, now);
    }

    /** The session is saved as ENDED before the rules are looked at, and the first rule that applies
        is awarded; when awarding raises, the `atomic` block takes everything back. */
    method AwardBest(i: nat, s: Session, checks: seq<Check>, now: int) returns (r: Result<Session, Refusal>)
      requires Valid() && i < |sessions| && sessions[i].status == Playing
      modifies this, platform, platform.store
      ensures Valid()
      ensures match Awarded(old(A()), i, s, checks, now) {
                case Ok(b) => A() == b && i < |sessions| && r == Ok(sessions[i])
                case Err(e) => r == Err(e) && A() == old(A()) && platform.store.View() == old(platform.store.View())
              }
    {
      var saved := sessions;
      ghost var before := clock;
      SaveSession(i, s, Finished(checks, now));
      var k := PickRule(i, checks, saved);
      if k >= 0 {
        var paid := Pay(i, checks[k]);
        if paid.Err? {
          sessions, clock := saved, before;
          return Err(NotRewarded(paid.error));
        }
      }
      return Ok(sessions[i]);
    }

    method SaveSession(i: nat, s: Session, now: int)
      requires i < |sessions|
      modifies this
      ensures H() == WithSession(old(H()), i, s, now)
    {
      sessions, clock := sessions[i := s], now;
    }

    /** The call of `award_fixed` for a session and the rule that applies to it. */
    method Pay(i: nat, c: Check) returns (r: Result<(), Failure>)
      requires Valid() && i < |sessions|
      modifies this, platform, platform.store
      ensures Valid()
      ensures match IssueReward(old(platform.T()), GameIssue(i, old(sessions)[i].user, c.rule, c.at)) {
                case Ok(x) =>
                  && r == Ok(()) && platform.T() == x.tables && clock == old(clock)
                  && var given := if x.created then Some(Given(c.rule, x.reward, c.at)) else None;
                     sessions == old(sessions)[i := old(sessions)[i].(reward := given)]
                case Err(e) =>
                  r == Err(e) && A() == old(A()) && platform.store.View() == old(platform.store.View())
              }
    {
      var s, rule := sessions[i], c.rule;
      var cash := if rule.mode == InCash then rule.cash else 0;
      var points := if rule.mode == InPoints then rule.points else 0;
      QuantizeOfInt(cash);
      QuantizeOfInt(points);
      var given := platform.AwardFixed(s.user, RewardMath.Source.Game, SessionRef(i), cash as real, points as real,
          PKR, true, c.at);
      if given.Err? {
        return Err(given.error);
      }
      sessions := sessions[i := s.(reward := if given.value.1 then Some(Given(rule, given.value.0, c.at)) else None)];
      return Ok(());
    }

    // -------------------------------------------------------------- whole runs

    /** Sessions and money services in any order do exactly what the arcade machine says. */
    method Replay(es: seq<Event>)
      requires Valid()
      modifies this, platform, platform.store
      ensures Valid() && A() == PlayRun(old(A()), es)
    {
      hide StartAnswers, EndAnswers, Start, End;
      assert es[..0] == [];
      for i := 0 to |es|
        invariant Valid() && A() == PlayRun(old(A()), es[..i])
      {
        assert es[..i + 1][..i] == es[..i];
        match es[i] {
          case StartSession(user, game, enabled, available, today, now) =>
            var _ := StartSession(user, game, enabled, available, today, now);
          case EndSession(session, score, checks, now) =>
            var _ := EndSession(session, score, checks, now);
          case Service(x) =>
            platform.Call(x);
        }
      }
      assert es[..|es|] == es;
    }
  }
}
