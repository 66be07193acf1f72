/** What a user earns (apps/rewards/services.py): rule resolution and the split of the revenue.

    Money is in units of 1e-8 and points in units of 1e-2; see Decimals. */
module RewardMath {
  import opened Outcomes
  import opened Decimals

  datatype Source = Game | Survey | Offer | Bonus | Referral | Adjustment | Promotion

  datatype RuleScope = AnySource | Only(source: Source)

  datatype Rule = Rule(
    active: bool,
    scope: RuleScope,
    providerCode: string,
    campaignType: string,
    country: string,
    userTier: string,
    minPayout: Option<real>,
    maxPayout: Option<real>,
    rewardCurrency: Currency,
    userPercentage: Option<real>,
    fixedCash: Option<int>,
    fixedPoints: Option<int>,
    pointsPercentage: Option<real>,
    multiplier: real,
    maxUserReward: Option<int>,
    manual: bool)

  /** The conversion context that a rule's scope is matched against. */
  datatype Context = Context(
    source: Source,
    providerCode: string,
    campaignType: string,
    country: string,
    userTier: string,
    payout: Option<real>)

  predicate ConditionsMatch(rule: Rule, payout: Option<real>) {
    || (rule.minPayout == None && rule.maxPayout == None)
    || (&& payout.Some?
        && (rule.minPayout.Some? ==> rule.minPayout.value <= payout.value)
        && (rule.maxPayout.Some? ==> payout.value <= rule.maxPayout.value))
  }

  predicate Matches(rule: Rule, c: Context) {
    && rule.active
    && (rule.scope == AnySource || rule.scope == Only(c.source))
    && (rule.providerCode == "" || rule.providerCode == c.providerCode)
    && (rule.campaignType == "" || rule.campaignType == c.campaignType)
    && (rule.country == "" || rule.country == c.country)
    && (rule.userTier == "" || rule.userTier == c.userTier)
    && ConditionsMatch(rule, c.payout)
  }

  /** Why a rule is not for a context. */
  predicate PassedOver(rule: Rule, c: Context) {
    || !rule.active
    || (rule.scope.Only? && rule.scope.source != c.source)
    || (rule.providerCode != "" && rule.providerCode != c.providerCode)
    || (rule.campaignType != "" && rule.campaignType != c.campaignType)
    || (rule.country != "" && rule.country != c.country)
    || (rule.userTier != "" && rule.userTier != c.userTier)
    || (rule.minPayout.Some? && (c.payout.None? || c.payout.value < rule.minPayout.value))
    || (rule.maxPayout.Some? && (c.payout.None? || c.payout.value > rule.maxPayout.value))
  }

  lemma MatchesIffNotPassedOver(rule: Rule, c: Context)
    ensures Matches(rule, c) <==> !PassedOver(rule, c)
  {
  }

  /** The rule that `resolve_rule` is to find among the rules in (priority, created_at) order. */
  ghost predicate IsFirstMatch(rules: seq<Rule>, c: Context, found: Option<nat>) {
    if found.Some? then
      && found.value < |rules| && !PassedOver(rules[found.value], c)
      && forall i | 0 <= i < found.value :: PassedOver(rules[i], c)
    else forall i | 0 <= i < |rules| :: PassedOver(rules[i], c)
  }

  /** `resolve_rule` */
  method ResolveRule(rules: seq<Rule>, c: Context) returns (found: Option<nat>)
    ensures IsFirstMatch(rules, c, found)
  {
    for i := 0 to |rules|
      invariant forall j | 0 <= j < i :: PassedOver(rules[j], c)
    {
      MatchesIffNotPassedOver(rules[i], c);
      if Matches(rules[i], c) {
        return Some(i);
      }
    }
    return None;
  }

  /** A zero multiplier is falsy and therefore ignored. */
  function EffectiveMultiplier(rule: Rule): real {
    if rule.multiplier == 0.0 then 1.0 else rule.multiplier
  }

  function Multiplied(rule: Rule, x: real): real {
    x * EffectiveMultiplier(rule)
  }

  function OrZero(x: Option<real>): real {
    if x.Some? then x.value else 0.0
  }

  function UnitsOrZero(x: Option<int>): real {
    if x.Some? then x.value as real else 0.0
  }

  function PercentOf(payout: real, percent: Option<real>): real {
    if percent.Some? then payout * percent.value / 100.0 else 0.0
  }

  function CashShare(rule: Rule, payout: real): real {
    Multiplied(rule, PercentOf(payout, rule.userPercentage))
  }

  function FixedShare(rule: Rule): real {
    Multiplied(rule, UnitsOrZero(rule.fixedCash))
  }

  /** Points are counted in units of 1e-2, the payout in units of 1e-8. */
  function PointsShare(rule: Rule, payout: real): int {
    Quantize(Multiplied(rule, PercentOf(payout, rule.pointsPercentage) / 1000000.0 + UnitsOrZero(rule.fixedPoints)))
  }

  datatype Parts = Parts(percentageCash: real, fixedCash: real, points: int)

  /** `calculate_reward_parts`: cash in the revenue currency, cash in the reward currency, points. */
  function RewardParts(rule: Option<Rule>, payout: Option<real>): Parts {
    if rule.None? then Parts(0.0, 0.0, 0)
    else
      var p := OrZero(payout);
      Parts(CashShare(rule.value, p), FixedShare(rule.value), PointsShare(rule.value, p))
  }

  lemma MultiplierSkipped(rule: Rule, x: real)
    requires rule.multiplier == 0.0 || rule.multiplier == 1.0
    ensures Multiplied(rule, x) == x
  {
  }

  /** `calculate_reward_parts`, one addition after the other and the multiplier at the end. */
  method CalculateRewardParts(rule: Option<Rule>, payout: Option<real>) returns (parts: Parts)
    ensures parts == RewardParts(rule, payout)
  {
    hide Multiplied, PercentOf;
    if rule.None? {
      return Parts(0.0, 0.0, 0);
    }
    var r, p := rule.value, OrZero(payout);
    var cash, fixed, points := 0.0, 0.0, 0.0;
    NoPercentage(p);
    if r.userPercentage.Some? {
      cash := cash + PercentOf(p, r.userPercentage);
    }
    if r.fixedCash.Some? {
      fixed := fixed + r.fixedCash.value as real;
    }
    if r.pointsPercentage.Some? {
      points := points + PercentOf(p, r.pointsPercentage) / 1000000.0;
    }
    if r.fixedPoints.Some? {
      points := points + r.fixedPoints.value as real;
    }
    if r.multiplier != 0.0 && r.multiplier != 1.0 {
      cash, fixed, points := Multiplied(r, cash), Multiplied(r, fixed), Multiplied(r, points);
    } else {
      MultiplierSkipped(r, cash);
      MultiplierSkipped(r, fixed);
      MultiplierSkipped(r, points);
    }
    return Parts(cash, fixed, Quantize(points));
  }

  lemma NoPercentage(p: real)
    ensures PercentOf(p, None) == 0.0
  {
  }

  function Capped(cash: int, rule: Option<Rule>): int {
    if rule.Some? && rule.value.maxUserReward.Some? && cash > rule.value.maxUserReward.value
    then rule.value.maxUserReward.value
    else cash
  }

  datatype Amounts = Amounts(cash: int, points: int, platformShare: Option<real>)

  /** The percentage cash in the reward currency: only a share other than zero is converted. */
  function ConvertedShare(x: real, revenue: Currency, reward: Currency, rate: real): Result<real, ConvertError> {
    if revenue == reward || x == 0.0 then Ok(x)
    else
      match Convert(x, revenue, reward, rate)
      case Ok(units) => Ok(units as real)
      case Err(e) => Err(e)
  }

  /** The amounts that `award` computes before it issues the reward. */
  function ComputeAward(rule: Option<Rule>, gross: Option<real>, revenue: Currency, reward: Currency, rate: real)
    : Result<Amounts, ConvertError>
  {
    var parts := RewardParts(rule, gross);
    match ConvertedShare(parts.percentageCash, revenue, reward, rate)
    case Err(e) => Err(e)
    case Ok(share) =>
      var cash := Capped(Quantize(share + parts.fixedCash), rule);
      if gross.None? then Ok(Amounts(cash, parts.points, None))
      else
        match if revenue == reward then Ok(cash) else Convert(cash as real, reward, revenue, rate)
        case Err(e) => Err(e)
        case Ok(back) => Ok(Amounts(cash, parts.points, Some(gross.value - back as real)))
  }

  // ---------------------------------------------------------------- what an award comes to

  /** There is a conversion path from the revenue currency to the reward currency. */
  predicate Convertible(revenue: Currency, reward: Currency, rate: real) {
    revenue == reward || (rate > 0.0 && ((revenue == USD && reward == PKR) || (revenue == PKR && reward == USD)))
  }

  /** So many hundredths of the payout. */
  function Hundredths(payout: real, percent: Option<real>): real {
    if percent.Some? then payout * (percent.value / 100.0) else 0.0
  }

  /** A zero multiplier is falsy and therefore ignored. */
  function Times(x: real, multiplier: real): real {
    if multiplier == 0.0 then x else x * multiplier
  }

  /** What an amount is worth in another currency: rounded if it has to be converted. */
  function Worth(x: real, source: Currency, target: Currency, rate: real): real
    requires Convertible(source, target, rate)
  {
    if source == target || x == 0.0 then x
    else if source == USD then Quantize(x * rate) as real
    else Quantize(x / rate) as real
  }

  /** The cash that a rule owes for a payout: its percentage and its fixed amount, at most its cap. */
  predicate OwesCash(rule: Rule, gross: Option<real>, revenue: Currency, reward: Currency, rate: real, cash: int)
    requires gross.Some? ==> Convertible(revenue, reward, rate)
  {
    var share :=
      if gross.None? then 0.0
      else Worth(Times(Hundredths(gross.value, rule.userPercentage), rule.multiplier), revenue, reward, rate);
    var fixed := if rule.fixedCash.Some? then rule.fixedCash.value as real else 0.0;
    cash == LimitedTo(Quantize(share + Times(fixed, rule.multiplier)), rule.maxUserReward)
  }

  /** Points have two decimals, the payout has eight. */
  predicate OwesPoints(rule: Rule, gross: Option<real>, points: int) {
    var share := if gross.Some? then Hundredths(gross.value, rule.pointsPercentage) / 1000000.0 else 0.0;
    var fixed := if rule.fixedPoints.Some? then rule.fixedPoints.value as real else 0.0;
    points == Quantize(Times(share + fixed, rule.multiplier))
  }

  function LimitedTo(x: int, limit: Option<int>): int {
    if limit.Some? && limit.value < x then limit.value else x
  }

  lemma TakenTimes(rule: Rule, x: real)
    ensures Multiplied(rule, x) == Times(x, rule.multiplier)
    ensures Multiplied(rule, 0.0) == 0.0
  {
  }

  lemma PercentIsHundredths(payout: real, percent: Option<real>)
    ensures PercentOf(payout, percent) == Hundredths(payout, percent)
    ensures PercentOf(0.0, percent) == 0.0
  {
  }

  lemma PointsAreOwed(rule: Rule, gross: Option<real>)
    ensures OwesPoints(rule, gross, PointsShare(rule, OrZero(gross)))
  {
    hide Quantize, PercentOf, Hundredths, Multiplied, Times;
    var payout := OrZero(gross);
    PercentIsHundredths(payout, rule.pointsPercentage);
    TakenTimes(rule, PercentOf(payout, rule.pointsPercentage) / 1000000.0 + UnitsOrZero(rule.fixedPoints));
  }

  lemma UsdTimesRate(x: real, rate: real)
    requires rate > 0.0 && x != 0.0
    ensures Convert(x, USD, PKR, rate).Ok? && Convert(x, USD, PKR, rate).value as real == Worth(x, USD, PKR, rate)
  {
    var y := x * rate;
    assert Convert(x, USD, PKR, rate) == Ok(Quantize(y));
    assert Worth(x, USD, PKR, rate) == Quantize(y) as real;
  }

  lemma ConvertGivesWorth(x: real, source: Currency, target: Currency, rate: real)
    requires source != target
    ensures var r := Convert(x, source, target, rate);
            && (r.Ok? <==> Convertible(source, target, rate))
            && (r.Ok? ==> r.value as real == Worth(x, source, target, rate))
  {
    NothingConvertsToNothing(source, target, rate);
    if source == USD && target == PKR && rate > 0.0 && x != 0.0 {
      UsdTimesRate(x, rate);
    }
  }

  lemma ShareIsConverted(x: real, revenue: Currency, reward: Currency, rate: real)
    ensures x == 0.0 ==> ConvertedShare(x, revenue, reward, rate) == Ok(x)
    ensures ConvertedShare(x, revenue, reward, rate).Ok? <==> x == 0.0 || Convertible(revenue, reward, rate)
    ensures Convertible(revenue, reward, rate) ==>
              ConvertedShare(x, revenue, reward, rate) == Ok(Worth(x, revenue, reward, rate))
  {
    hide Convert;
    if revenue != reward {
      ConvertGivesWorth(x, revenue, reward, rate);
    }
  }

  lemma CashIsOwed(rule: Rule, gross: Option<real>, revenue: Currency, reward: Currency, rate: real)
    requires gross.Some? ==> Convertible(revenue, reward, rate)
    ensures var r := ConvertedShare(CashShare(rule, OrZero(gross)), revenue, reward, rate);
            r.Ok? && OwesCash(rule, gross, revenue, reward, rate,
                              Capped(Quantize(r.value + FixedShare(rule)), Some(rule)))
  {
    hide Quantize, PercentOf, Hundredths, Multiplied, Times, ConvertedShare, Worth, Convertible;
    var payout := OrZero(gross);
    PercentIsHundredths(payout, rule.userPercentage);
    TakenTimes(rule, PercentOf(payout, rule.userPercentage));
    TakenTimes(rule, UnitsOrZero(rule.fixedCash));
    ShareIsConverted(CashShare(rule, payout), revenue, reward, rate);
  }

  /** What an award comes to: the cash and points that its rule owes, nothing without a rule; the
      platform keeps what the cash, converted back, leaves of the payout. */
  predicate Owed(rule: Option<Rule>, gross: Option<real>, revenue: Currency, reward: Currency, rate: real, x: Amounts) {
    && (gross.Some? ==> Convertible(revenue, reward, rate) && Convertible(reward, revenue, rate))
    && (if rule.None? then x.cash == 0 && x.points == 0
        else OwesCash(rule.value, gross, revenue, reward, rate, x.cash) && OwesPoints(rule.value, gross, x.points))
    && x.platformShare ==
       if gross.None? then None else Some(gross.value - Worth(x.cash as real, reward, revenue, rate))
  }

  /** Awarding raises exactly when a payout is given in a currency that does not convert; otherwise it
      computes exactly what is owed. */
  lemma AwardComesTo(rule: Option<Rule>, gross: Option<real>, revenue: Currency, reward: Currency, rate: real,
                     x: Amounts)
    ensures var r := ComputeAward(rule, gross, revenue, reward, rate);
            && (r.Err? <==> gross.Some? && !Convertible(revenue, reward, rate))
            && (r == Ok(x) <==> Owed(rule, gross, revenue, reward, rate, x))
  {
    hide Quantize, Convertible, Worth, OwesCash, OwesPoints, Convert, ConvertedShare, CashShare, PointsShare, Capped;
    hide FixedShare;
    var parts := RewardParts(rule, gross);
    var share := ConvertedShare(parts.percentageCash, revenue, reward, rate);
    ShareIsConverted(parts.percentageCash, revenue, reward, rate);
    BothWays(revenue, reward, rate);
    if rule.Some? {
      OwedOnce(rule.value, gross, revenue, reward, rate);
      PointsAreOwed(rule.value, gross);
      NoPayoutNoShare(rule.value);
      if gross.Some? ==> Convertible(revenue, reward, rate) {
        CashIsOwed(rule.value, gross, revenue, reward, rate);
      }
    } else {
      QuantizeOfInt(0);
      NothingIsCapped();
    }
    if share.Ok? && revenue != reward {
      ConvertGivesWorth(Capped(Quantize(share.value + parts.fixedCash), rule) as real, reward, revenue, rate);
    }
  }

  lemma OwedOnce(rule: Rule, gross: Option<real>, revenue: Currency, reward: Currency, rate: real)
    ensures (gross.Some? ==> Convertible(revenue, reward, rate)) ==>
              forall a, b |
                OwesCash(rule, gross, revenue, reward, rate, a) && OwesCash(rule, gross, revenue, reward, rate, b) ::
                a == b
    ensures forall a, b | OwesPoints(rule, gross, a) && OwesPoints(rule, gross, b) :: a == b
  {
  }

  lemma BothWays(c: Currency, d: Currency, rate: real)
    ensures Convertible(c, d, rate) <==> Convertible(d, c, rate)
    ensures c == d ==> Convertible(c, d, rate) && forall x :: Worth(x, c, d, rate) == x
  {
  }

  lemma NothingIsCapped()
    ensures Capped(0, None) == 0
  {
  }

  /** The cap of the rule holds whatever the percentages and the rate are. */
  lemma CashNeverExceedsCap(rule: Rule, gross: Option<real>, revenue: Currency, reward: Currency, rate: real)
    requires rule.maxUserReward.Some?
    ensures var r := ComputeAward(Some(rule), gross, revenue, reward, rate);
            r.Ok? ==> r.value.cash <= rule.maxUserReward.value
  {
  }

  /** A rule that only names fixed amounts pays exactly these when its multiplier is 0 or 1. */
  lemma FixedRulePaysItsAmounts(rule: Rule, gross: Option<real>, revenue: Currency, reward: Currency, rate: real)
    requires rule.userPercentage.None? && rule.pointsPercentage.None? && rule.maxUserReward.None?
    requires rule.multiplier == 0.0 || rule.multiplier == 1.0
    ensures var r := ComputeAward(Some(rule), gross, revenue, reward, rate);
            r.Ok? ==> && r.value.cash == (if rule.fixedCash.Some? then rule.fixedCash.value else 0)
                      && r.value.points == (if rule.fixedPoints.Some? then rule.fixedPoints.value else 0)
  {
    hide Multiplied, PercentOf, Convert, Quantize;
    var p := OrZero(gross);
    NoPercentage(p);
    MultiplierSkipped(rule, 0.0);
    MultiplierSkipped(rule, UnitsOrZero(rule.fixedCash));
    MultiplierSkipped(rule, UnitsOrZero(rule.fixedPoints));
    QuantizeOfInt(if rule.fixedCash.Some? then rule.fixedCash.value else 0);
    QuantizeOfInt(if rule.fixedPoints.Some? then rule.fixedPoints.value else 0);
  }

  lemma MultipliedGrows(rule: Rule, x: real, y: real)
    requires x <= y && rule.multiplier >= 0.0
    ensures Multiplied(rule, x) <= Multiplied(rule, y)
  {
    MulMonotone(x, y, EffectiveMultiplier(rule));
  }

  lemma PercentGrows(p: real, q: real, percent: Option<real>)
    requires p <= q && OrZero(percent) >= 0.0
    ensures PercentOf(p, percent) <= PercentOf(q, percent)
  {
    MulMonotone(p, q, OrZero(percent));
  }

  lemma NoPayoutNoShare(rule: Rule)
    ensures CashShare(rule, 0.0) == 0.0
  {
  }

  lemma SharesGrow(rule: Rule, p: real, q: real)
    requires p <= q && rule.multiplier >= 0.0
    requires OrZero(rule.userPercentage) >= 0.0 && OrZero(rule.pointsPercentage) >= 0.0
    ensures CashShare(rule, p) <= CashShare(rule, q) && PointsShare(rule, p) <= PointsShare(rule, q)
  {
    hide Multiplied, PercentOf, Quantize;
    PercentGrows(p, q, rule.userPercentage);
    PercentGrows(p, q, rule.pointsPercentage);
    MultipliedGrows(rule, PercentOf(p, rule.userPercentage), PercentOf(q, rule.userPercentage));
    var fixed := UnitsOrZero(rule.fixedPoints);
    var x, y := PercentOf(p, rule.pointsPercentage) / 1000000.0 + fixed,
        PercentOf(q, rule.pointsPercentage) / 1000000.0 + fixed;
    MultipliedGrows(rule, x, y);
    QuantizeMonotone(Multiplied(rule, x), Multiplied(rule, y));
  }

  lemma NothingConvertsToNothing(source: Currency, target: Currency, rate: real)
    ensures var r := Convert(0.0, source, target, rate);
            r.Ok? ==> r.value == 0
  {
    QuantizeOfInt(0);
    if rate > 0.0 {
      DivideThenMultiply(0.0, rate);
      assert 0.0 / rate == 0.0;
    }
  }

  lemma ConvertedShareGrows(x: real, y: real, revenue: Currency, reward: Currency, rate: real)
    requires 0.0 <= x <= y
    ensures var low, high := ConvertedShare(x, revenue, reward, rate), ConvertedShare(y, revenue, reward, rate);
            low.Ok? && high.Ok? ==> low.value <= high.value
  {
    hide Convert;
    ConvertMonotone(x, y, revenue, reward, rate);
    ConvertMonotone(0.0, y, revenue, reward, rate);
    NothingConvertsToNothing(revenue, reward, rate);
  }

  /** The cash of an award in terms of its converted share. */
  lemma CashOfAward(rule: Rule, p: real, revenue: Currency, reward: Currency, rate: real)
    ensures var r := ComputeAward(Some(rule), Some(p), revenue, reward, rate);
            var share := ConvertedShare(CashShare(rule, p), revenue, reward, rate);
            r.Ok? ==> && share.Ok? && r.value.points == PointsShare(rule, p)
                      && r.value.cash == Capped(Quantize(share.value + FixedShare(rule)), Some(rule))
  {
    hide CashShare, PointsShare, FixedShare, Quantize, Convert;
  }

  /** A higher payout never earns less cash or fewer points, through conversion, roundings and cap. */
  lemma AwardGrowsWithPayout(rule: Rule, p: real, q: real, revenue: Currency, reward: Currency, rate: real)
    requires 0.0 <= p <= q && rule.multiplier >= 0.0
    requires OrZero(rule.userPercentage) >= 0.0 && OrZero(rule.pointsPercentage) >= 0.0
    ensures var low := ComputeAward(Some(rule), Some(p), revenue, reward, rate);
            var high := ComputeAward(Some(rule), Some(q), revenue, reward, rate);
            low.Ok? && high.Ok? ==> low.value.cash <= high.value.cash && low.value.points <= high.value.points
  {
    hide ComputeAward, ConvertedShare, CashShare, PointsShare, FixedShare, Quantize;
    SharesGrow(rule, 0.0, p);
    SharesGrow(rule, p, q);
    NoPayoutNoShare(rule);
    CashOfAward(rule, p, revenue, reward, rate);
    CashOfAward(rule, q, revenue, reward, rate);
    ConvertedShareGrows(CashShare(rule, p), CashShare(rule, q), revenue, reward, rate);
    var x := ConvertedShare(CashShare(rule, p), revenue, reward, rate);
    var y := ConvertedShare(CashShare(rule, q), revenue, reward, rate);
    if x.Ok? && y.Ok? {
      QuantizeMonotone(x.value + FixedShare(rule), y.value + FixedShare(rule));
    }
  }

  /** A percentage rule: no fixed cash. */
  predicate PercentageOnly(rule: Rule) {
    rule.fixedCash.None?
  }

  function UserPercent(rule: Rule): real {
    OrZero(rule.userPercentage) * EffectiveMultiplier(rule)
  }

  lemma ShareIsPercent(rule: Rule, g: real)
    ensures CashShare(rule, g) == g * (UserPercent(rule) / 100.0)
  {
  }

  lemma ShareOfAtMostAll(g: real, percent: real)
    requires 0.0 <= g && percent <= 100.0
    ensures g * (percent / 100.0) <= g
  {
    MulMonotone(percent / 100.0, 1.0, g);
  }

  lemma WholeRevenueConverts(gross: nat, revenue: Currency, reward: Currency, rate: real)
    requires Convertible(revenue, reward, rate)
    ensures Convert(gross as real, revenue, reward, rate).Ok?
    ensures revenue == reward ==> Convert(gross as real, revenue, reward, rate).value == gross
  {
    QuantizeOfInt(gross);
  }

  /** The user's cash never exceeds what converting the whole revenue gives. */
  lemma CashWithinRevenue(rule: Rule, gross: nat, revenue: Currency, reward: Currency, rate: real)
    requires PercentageOnly(rule) && UserPercent(rule) <= 100.0 && Convertible(revenue, reward, rate)
    ensures var r := ComputeAward(Some(rule), Some(gross as real), revenue, reward, rate);
            var whole := Convert(gross as real, revenue, reward, rate);
            r.Ok? && whole.Ok? && r.value.cash <= whole.value
  {
    var g := gross as real;
    var x := CashShare(rule, g);
    ShareIsPercent(rule, g);
    ShareOfAtMostAll(g, UserPercent(rule));
    assert x <= g;
    assert FixedShare(rule) == 0.0;
    WholeRevenueConverts(gross, revenue, reward, rate);
    ConvertMonotone(x, g, revenue, reward, rate);
    ConvertMonotone(0.0, g, revenue, reward, rate);
    NothingConvertsToNothing(revenue, reward, rate);
    if revenue != reward {
      QuantizeOfInt(if x != 0.0 then Convert(x, revenue, reward, rate).value else 0);
    }
  }

  /** The award is computed and leaves the platform a share of at least zero. */
  predicate PlatformGains(rule: Rule, gross: nat, revenue: Currency, reward: Currency, rate: real) {
    var r := ComputeAward(Some(rule), Some(gross as real), revenue, reward, rate);
    r.Ok? && r.value.platformShare.Some? && r.value.platformShare.value >= 0.0
  }

  /** Platform share bound: a user percentage of at most 100 never costs the platform anything,
      through both roundings and the cap, when 1 USD is worth at least 1 PKR. */
  lemma PlatformShareNotNegative(rule: Rule, gross: nat, revenue: Currency, reward: Currency, rate: real)
    requires PercentageOnly(rule) && UserPercent(rule) <= 100.0
    requires revenue == reward || (revenue == USD && reward == PKR && rate >= 1.0)
    ensures PlatformGains(rule, gross, revenue, reward, rate)
  {
    CashWithinRevenue(rule, gross, revenue, reward, rate);
    if revenue != reward {
      var cash := ComputeAward(Some(rule), Some(gross as real), revenue, reward, rate).value.cash;
      ConvertMonotone(cash as real, ToPkr(gross, rate) as real, PKR, USD, rate);
      UsdSurvivesRoundTrip(gross, rate);
    }
  }

  /** For any positive rate the loss is at most half a unit, plus half a unit of the reward currency
      in the revenue currency: for dollars paid out in rupees and the other way round. */
  lemma PlatformShareBound(rule: Rule, gross: nat, rate: real)
    requires PercentageOnly(rule) && UserPercent(rule) <= 100.0
    requires rate > 0.0
    ensures var r := ComputeAward(Some(rule), Some(gross as real), USD, PKR, rate);
            r.Ok? && r.value.platformShare.Some? && r.value.platformShare.value >= -(0.5 / rate + 0.5)
    ensures var r := ComputeAward(Some(rule), Some(gross as real), PKR, USD, rate);
            r.Ok? && r.value.platformShare.Some? && r.value.platformShare.value >= -(0.5 * rate + 0.5)
  {
    hide Quantize, RewardParts, IsNearestEven;
    CashWithinRevenue(rule, gross, USD, PKR, rate);
    var cash := ComputeAward(Some(rule), Some(gross as real), USD, PKR, rate).value.cash;
    ConvertMonotone(cash as real, ToPkr(gross, rate) as real, PKR, USD, rate);
    BackWithin(gross, rate);
    CashWithinRevenue(rule, gross, PKR, USD, rate);
    cash := ComputeAward(Some(rule), Some(gross as real), PKR, USD, rate).value.cash;
    ConvertMonotone(cash as real, ToUsd(gross, rate) as real, USD, PKR, rate);
    PkrRoundTripBound(gross, rate);
  }

  lemma BackWithin(usd: nat, rate: real)
    requires rate > 0.0
    ensures ToUsd(ToPkr(usd, rate), rate) as real <= usd as real + 0.5 / rate + 0.5
  {
    var a, p := usd as real, ToPkr(usd, rate) as real;
    var exact := a * rate;
    var half := exact + 0.5;
    assert p <= half;
    DivMonotone(p, half, rate);
    MultiplyThenDivide(a, rate);
    DivideDifference(half, exact, rate);
  }

  /** The bound on the percentage is exact: an uncapped rule that pays out more than 100 percent
      makes the platform's share negative on some revenue, and only such a rule does. */
  lemma PlatformShareNotNegativeIff(rule: Rule, revenue: Currency, reward: Currency, rate: real)
    requires PercentageOnly(rule) && rule.maxUserReward.None?
    requires revenue == reward || (revenue == USD && reward == PKR && rate >= 1.0)
    ensures (forall gross: nat :: PlatformGains(rule, gross, revenue, reward, rate)) <==> UserPercent(rule) <= 100.0
  {
    if UserPercent(rule) <= 100.0 {
      forall gross: nat ensures PlatformGains(rule, gross, revenue, reward, rate) {
        PlatformShareNotNegative(rule, gross, revenue, reward, rate);
      }
    } else {
      var gross := OverpayingRevenue(rule, revenue, reward, rate);
    }
  }

  lemma OverpayingRevenue(rule: Rule, revenue: Currency, reward: Currency, rate: real) returns (gross: nat)
    requires PercentageOnly(rule) && rule.maxUserReward.None? && UserPercent(rule) > 100.0
    requires revenue == reward || (revenue == USD && reward == PKR && rate >= 1.0)
    ensures !PlatformGains(rule, gross, revenue, reward, rate)
  {
    var factor := UserPercent(rule) / 100.0;
    var bound := 1.0 / (factor - 1.0);
    gross := NatAbove(bound);
    var g := gross as real;
    DivideThenMultiply(1.0, factor - 1.0);
    ProductsGrow(bound, g, factor - 1.0);
    TimesLessOne(g, factor);
    ShareIsPercent(rule, g);
    assert CashShare(rule, g) >= (gross + 1) as real;
    OverpaidShare(rule, gross, revenue, reward, rate);
  }

  lemma TimesLessOne(g: real, factor: real)
    ensures g * (factor - 1.0) == g * factor - g
  {
  }

  lemma OverpaidShare(rule: Rule, gross: nat, revenue: Currency, reward: Currency, rate: real)
    requires PercentageOnly(rule) && rule.maxUserReward.None?
    requires CashShare(rule, gross as real) >= (gross + 1) as real
    requires revenue == reward || (revenue == USD && reward == PKR && rate >= 1.0)
    ensures !PlatformGains(rule, gross, revenue, reward, rate)
  {
    var x, more := CashShare(rule, gross as real), (gross + 1) as real;
    QuantizeMonotone(more, x);
    QuantizeOfInt(gross + 1);
    if revenue != reward {
      ConvertMonotone(more, x, USD, PKR, rate);
      var cash := Convert(x, USD, PKR, rate).value;
      QuantizeOfInt(cash);
      assert cash as real + 0.0 == cash as real;
      ConvertMonotone(ToPkr(gross + 1, rate) as real, cash as real, PKR, USD, rate);
      UsdSurvivesRoundTrip(gross + 1, rate);
    }
  }
}
