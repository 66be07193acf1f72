/** Game sessions and their rewards as a state machine (apps/games/services.py).

    Times are microseconds since the epoch in UTC.  A call reads the clock several times, and these
    readings never go back. */
module Games {
  import opened Calendar
  import opened Outcomes
  import opened Decimals
  import RewardMath
  import opened Sums
  import opened MoneyTables

  datatype Game = Game(minSeconds: nat, maxDailySessions: nat)

  datatype Mode = InPoints | InCash

  datatype GameRule = GameRule(
    id: nat,
    game: nat,
    active: bool,
    minScore: Option<int>,
    minDuration: Option<int>,
    mode: Mode,
    points: int,
    cash: int,
    cooldownHours: nat,
    dailyMax: nat,
    monthlyMax: nat)

  datatype SessionStatus = Playing | Ended | Invalidated

  /** The rule that a session's reward names in its context, the row of the reward, and when the rule
      was found to be available. */
  datatype Given = Given(rule: GameRule, row: nat, at: int)

  /** `reward` is history that the session row does not keep. */
  datatype Session = Session(
    user: nat,
    game: nat,
    status: SessionStatus,
    startedAt: int,
    endedAt: Option<int>,
    duration: nat,
    score: Option<int>,
    reward: Option<Given>)

  /** `clock` is a time that no later call reads an earlier one than. */
  datatype Hall = Hall(games: map<nat, Game>, sessions: seq<Session>, clock: int)

  /** The game hall together with the money tables that it awards into. */
  datatype Arcade = Arcade(hall: Hall, tables: Tables)

  datatype Refusal = GamesDisabled | NotAvailable | DailyLimit | NoSession | NotRewarded(failure: Failure)

  // ---------------------------------------------------------------- starting

  function StartedOn(user: nat, game: nat, day: int): Session -> bool {
    (s: Session) => s.user == user && s.game == game && Day(s.startedAt) == day
  }

  function NewSession(user: nat, game: nat, now: int): Session {
    Session(user, game, Playing, now, None, 0, None, None)
  }

  /** `start_session`: today is looked at first, then the row gets its own time. */
  function Start(h: Hall, user: nat, game: nat, enabled: bool, available: bool, today: int, now: int)
    : Result<Hall, Refusal>
  {
    if !enabled then Err(GamesDisabled)
    else if game !in h.games || !available then Err(NotAvailable)
    else if Count(h.sessions, StartedOn(user, game, Day(today))) >= h.games[game].maxDailySessions then Err(DailyLimit)
    else Ok(h.(sessions := h.sessions + [NewSession(user, game, now)], clock := now))
  }

  // ---------------------------------------------------------------- ending

  predicate EndedBy(s: Session, user: nat, game: nat) {
    s.user == user && s.game == game && s.status == Ended && s.endedAt.Some?
  }

  function EndedSince(user: nat, game: nat, from: int): Session -> bool {
    (s: Session) => EndedBy(s, user, game) && s.endedAt.value >= from
  }

  function EndedOn(user: nat, game: nat, day: int): Session -> bool {
    (s: Session) => EndedBy(s, user, game) && Day(s.endedAt.value) == day
  }

  function EndedIn(user: nat, game: nat, month: int): Session -> bool {
    (s: Session) => EndedBy(s, user, game) && MonthOf(s.endedAt.value) == month
  }

  predicate ConditionsMatch(rule: GameRule, duration: int, score: Option<int>) {
    && (rule.minScore.Some? ==> score.Some? && score.value >= rule.minScore.value)
    && (rule.minDuration.Some? ==> duration >= rule.minDuration.value)
  }

  function Cooldown(rule: GameRule): nat {
    rule.cooldownHours * MICROS_PER_HOUR
  }

  /** `_rule_available`, in view of the other sessions. */
  predicate Available(others: seq<Session>, user: nat, game: nat, rule: GameRule, now: int) {
    && Count(others, EndedSince(user, game, now - Cooldown(rule))) == 0
    && Count(others, EndedOn(user, game, Day(now))) < rule.dailyMax
    && Count(others, EndedIn(user, game, MonthOf(now))) < rule.monthlyMax
  }

  predicate Applies(others: seq<Session>, s: Session, rule: GameRule, now: int) {
    && rule.active && rule.game == s.game
    && ConditionsMatch(rule, s.duration, s.score)
    && Available(others, s.user, s.game, rule, now)
  }

  /** A rule and the clock at the time when its availability is looked at. */
  datatype Check = Check(rule: GameRule, at: int)

  predicate Passes(others: seq<Session>, s: Session, c: Check) {
    Applies(others, s, c.rule, c.at)
  }

  /** Whether a session of this user and game ended at or after a time, and the number of those that
      ended on the UTC day, or in the month, of a time. */
  predicate EndedAfter(others: seq<Session>, user: nat, game: nat, from: int) {
    exists j | 0 <= j < |others| ::
      && others[j].user == user && others[j].game == game && others[j].status == Ended
      && others[j].endedAt.Some? && others[j].endedAt.value >= from
  }

  function EndedThatDay(others: seq<Session>, user: nat, game: nat, at: int): set<int> {
    set j | 0 <= j < |others|
            && others[j].user == user && others[j].game == game && others[j].status == Ended
            && others[j].endedAt.Some? && others[j].endedAt.value / 86400000000 == at / 86400000000
  }

  function EndedThatMonth(others: seq<Session>, user: nat, game: nat, at: int): set<int> {
    set j | 0 <= j < |others|
            && others[j].user == user && others[j].game == game && others[j].status == Ended
            && others[j].endedAt.Some? && MonthOf(others[j].endedAt.value) == MonthOf(at)
  }

  /** Why a rule, looked at at a certain time, gives nothing for a session: it is switched off or for
      another game, the score or the duration is too low, the cooldown is not over, or a limit is
      used up. */
  predicate PassedOver(others: seq<Session>, s: Session, c: Check) {
    var rule := c.rule;
    || !rule.active || rule.game != s.game
    || (rule.minScore.Some? && (s.score.None? || s.score.value < rule.minScore.value))
    || (rule.minDuration.Some? && s.duration < rule.minDuration.value)
    || EndedAfter(others, s.user, s.game, c.at - rule.cooldownHours * 3600000000)
    || |EndedThatDay(others, s.user, s.game, c.at)| >= rule.dailyMax
    || |EndedThatMonth(others, s.user, s.game, c.at)| >= rule.monthlyMax
  }

  lemma CountsAreEnded(others: seq<Session>, user: nat, game: nat, at: int, from: int)
    ensures Count(others, EndedSince(user, game, from)) == 0 <==> !EndedAfter(others, user, game, from)
    ensures Count(others, EndedOn(user, game, Day(at))) == |EndedThatDay(others, user, game, at)|
    ensures Count(others, EndedIn(user, game, MonthOf(at))) == |EndedThatMonth(others, user, game, at)|
  {
    hide MonthOf;
    if EndedAfter(others, user, game, from) {
      var j :| 0 <= j < |others| && EndedSince(user, game, from)(others[j]);
      if Count(others, EndedSince(user, game, from)) == 0 {
        CountZero(others, EndedSince(user, game, from), j);
      }
    } else {
      CountNone(others, EndedSince(user, game, from));
    }
    CountIsCardinality(others, EndedOn(user, game, Day(at)));
    CountIsCardinality(others, EndedIn(user, game, MonthOf(at)));
    assert Positions(others, EndedOn(user, game, Day(at))) == EndedThatDay(others, user, game, at);
    assert Positions(others, EndedIn(user, game, MonthOf(at))) == EndedThatMonth(others, user, game, at);
  }

  lemma PassesIffNotPassedOver(others: seq<Session>, s: Session, c: Check)
    ensures Passes(others, s, c) <==> !PassedOver(others, s, c)
  {
    hide EndedAfter, EndedThatDay, EndedThatMonth, Count;
    CountsAreEnded(others, s.user, s.game, c.at, c.at - Cooldown(c.rule));
  }

  /** The first rule, in order of priority, that applies; -1 when there is none. */
  function FindRule(checks: seq<Check>, others: seq<Session>, s: Session): (k: int)
    ensures -1 <= k < |checks|
    ensures k >= 0 ==> Passes(others, s, checks[k])
    ensures forall j | 0 <= j < |checks| && (k < 0 || j < k) :: !Passes(others, s, checks[j])
  {
    if checks == [] then -1
    else
      var n := |checks| - 1;
      var k := FindRule(checks[..n], others, s);
      assert forall j | 0 <= j < n :: checks[..n][j] == checks[j];
      if k >= 0 then k
      else if Passes(others, s, checks[n]) then n
      else -1
  }

  /** The last clock reading of a call that ends a session at `now`. */
  function Finished(checks: seq<Check>, now: int): int {
    if checks == [] then now else checks[|checks| - 1].at
  }

  function Seconds(micros: int): nat {
    if micros < 0 then 0 else micros / MICROS_PER_SECOND
  }

  /** The session as it is closed: too short a session is invalidated. */
  function Closed(s: Session, minSeconds: nat, score: Option<int>, now: int): Session {
    var duration := Seconds(now - s.startedAt);
    s.(status := if duration < minSeconds then Invalidated else Ended,
       endedAt := Some(now), duration := duration, score := score)
  }

  function MinSeconds(h: Hall, game: nat): nat {
    if game in h.games then h.games[game].minSeconds else 0
  }

  /** What a rule pays goes through `award_fixed` in the default currency, approved at once. */
  function GameIssue(i: nat, user: nat, rule: GameRule, now: int): Issue {
    Issue(user, RewardMath.Source.Game, SessionRef(i), None, None,
          if rule.mode == InCash then rule.cash else 0,
          if rule.mode == InPoints then rule.points else 0,
          PKR, now, true)
  }

  function WithSession(h: Hall, i: nat, s: Session, now: int): Hall
    requires i < |h.sessions|
  {
    h.(sessions := h.sessions[i := s], clock := now)
  }

  /** The award for a session that ended as `s`.  It is still playing in the hall, whose sessions
      are therefore the others as far as ended sessions are concerned. */
  function Awarded(a: Arcade, i: nat, s: Session, checks: seq<Check>, now: int): Result<Arcade, Refusal>
    requires i < |a.hall.sessions|
  {
    var k, finish := FindRule(checks, a.hall.sessions, s), Finished(checks, now);
    if k < 0 then Ok(a.(hall := WithSession(a.hall, i, s, finish)))
    else
      match IssueReward(a.tables, GameIssue(i, s.user, checks[k].rule, checks[k].at))
      case Err(e) => Err(NotRewarded(e))
      case Ok(x) =>
        var given := if x.created then Some(Given(checks[k].rule, x.reward, checks[k].at)) else None;
        Ok(Arcade(WithSession(a.hall, i, s.(reward := given), finish), x.tables))
  }

  /** `end_session` */
  function End(a: Arcade, i: nat, score: Option<int>, checks: seq<Check>, now: int): Result<Arcade, Refusal> {
    var h := a.hall;
    if i >= |h.sessions| then Err(NoSession)
    else if h.sessions[i].status != Playing then Ok(a)
    else
      var s := Closed(h.sessions[i], MinSeconds(h, h.sessions[i].game), score, now);
      if s.status == Invalidated then Ok(a.(hall := WithSession(h, i, s, now)))
      else Awarded(a, i, s, checks, now)
  }

  /** A rule that pays nothing in its own mode. */
  predicate PaysNothing(rule: GameRule) {
    (if rule.mode == InCash then rule.cash else rule.points) <= 0
  }

  /** Ending a session raises exactly when the first rule that applies to it pays nothing (and no
      reward was given for it before); the session then stays open. */
  lemma EndRaisesIff(a: Arcade, i: nat, score: Option<int>, checks: seq<Check>, now: int)
    requires i < |a.hall.sessions| && a.hall.sessions[i].status == Playing
    ensures var s := Closed(a.hall.sessions[i], MinSeconds(a.hall, a.hall.sessions[i].game), score, now);
            End(a, i, score, checks, now).Err? <==>
              && s.status == Ended
              && FindClaim(a.tables.rewards, s.user, RewardMath.Source.Game, SessionRef(i)) < 0
              && exists k | 0 <= k < |checks| ::
                   && !PassedOver(a.hall.sessions, s, checks[k]) && PaysNothing(checks[k].rule)
                   && forall j | 0 <= j < k :: PassedOver(a.hall.sessions, s, checks[j])
  {
    var s := Closed(a.hall.sessions[i], MinSeconds(a.hall, a.hall.sessions[i].game), score, now);
    var k := FindRule(checks, a.hall.sessions, s);
    hide PassedOver;
    forall j | 0 <= j < |checks|
      ensures Passes(a.hall.sessions, s, checks[j]) <==> !PassedOver(a.hall.sessions, s, checks[j])
    {
      PassesIffNotPassedOver(a.hall.sessions, s, checks[j]);
    }
  }

  // ---------------------------------------------------------------- runs

  datatype Event =
    | StartSession(user: nat, game: nat, enabled: bool, available: bool, today: int, now: int)
    | EndSession(session: nat, score: Option<int>, checks: seq<Check>, now: int)
    | Service(action: Action)

  ghost function PlayStep(a: Arcade, e: Event): Arcade {
    match e
    case StartSession(user, game, enabled, available, today, now) =>
      (match Start(a.hall, user, game, enabled, available, today, now)
       case Ok(h) => a.(hall := h)
       case Err(_) => a)
    case EndSession(i, score, checks, now) =>
      (match End(a, i, score, checks, now)
       case Ok(b) => b
       case Err(_) => a)
    case Service(x) => a.(tables := Step(a.tables, x))
  }

  ghost function PlayRun(a: Arcade, es: seq<Event>): Arcade {
    if es == [] then a else PlayStep(PlayRun(a, es[..|es| - 1]), es[|es| - 1])
  }

  predicate InOrder(now: int, checks: seq<Check>) {
    && (forall k | 0 <= k < |checks| :: now <= checks[k].at)
    && (forall j, k | 0 <= j < k < |checks| :: checks[j].at <= checks[k].at)
  }

  /** Clocks only move forward, and only `end_session` awards for sessions. */
  predicate ProperEvent(a: Arcade, e: Event) {
    match e
    case StartSession(_, _, _, _, today, now) => a.hall.clock <= today <= now
    case EndSession(_, _, checks, now) => a.hall.clock <= now && InOrder(now, checks)
    case Service(x) => x.DoIssue? ==> !x.issue.ref.SessionRef?
  }

  ghost predicate ProperRun(a: Arcade, es: seq<Event>) {
    forall n | 0 <= n < |es| :: ProperEvent(PlayRun(a, es[..n]), es[n])
  }

  /** A hall in which nobody has played yet. */
  predicate Unplayed(a: Arcade) {
    && a.hall.sessions == []
    && forall r | 0 <= r < |a.tables.rewards| :: !a.tables.rewards[r].ref.SessionRef?
  }
}
