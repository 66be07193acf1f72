/** When a withdrawal is accepted, and on what terms (apps/withdrawals/services.py). */
module WithdrawalPolicy {
  import opened Outcomes
  import opened Decimals

  datatype PayoutMode = Manual | Auto | Hybrid

  /** The platform settings that are read; the limits are configured in PKR (units of 1e-8). */
  datatype Settings = Settings(
    enabled: bool,
    minimum: real,
    maximum: real,
    kycThreshold: real,
    autoPayoutMaximum: real,
    dualApprovalThreshold: real,
    cooldownHours: int,
    requireVerifiedMethod: bool,
    payoutMode: PayoutMode,
    feePercent: real,
    feeFixed: real,
    rate: real)

  /** What the database says about the user, the method and the requested currency. */
  datatype Circumstances = Circumstances(
    restricted: bool,
    kycApproved: bool,
    coolingDown: bool,
    methodVerified: bool,
    available: int)

  datatype Refusal =
    | Disabled | RestrictedUser | BelowMinimum | AboveMaximum | KycRequired | CooldownActive
    | UnverifiedMethod | InsufficientBalance | NoRate(error: ConvertError)

  datatype Terms = Terms(fee: int, auto: bool, dual: bool)

  /** `_limit_in_currency` */
  function LimitIn(pkr: real, currency: Currency, rate: real): Result<real, Refusal> {
    if currency == PKR || pkr == 0.0 then Ok(pkr)
    else
      match Convert(pkr, PKR, currency, rate)
      case Ok(units) => Ok(units as real)
      case Err(e) => Err(NoRate(e))
  }

  /** `_fee_for`, with the percentage taken in hundredths. */
  function FeeFor(amount: int, s: Settings): int {
    Quantize(amount as real * s.feePercent / 100.0 + s.feeFixed)
  }

  /** `_validate_request`: the checks in their order; None when the request passes. */
  function Validate(amount: int, currency: Currency, s: Settings, c: Circumstances): Option<Refusal> {
    if !s.enabled then Some(Disabled)
    else if c.restricted then Some(RestrictedUser)
    else
      var minimum := LimitIn(s.minimum, currency, s.rate);
      var maximum := LimitIn(s.maximum, currency, s.rate);
      var kyc := LimitIn(s.kycThreshold, currency, s.rate);
      if minimum.Err? then Some(minimum.error)
      else if maximum.Err? then Some(maximum.error)
      else if amount as real < minimum.value then Some(BelowMinimum)
      else if amount as real > maximum.value then Some(AboveMaximum)
      else if kyc.Err? then Some(kyc.error)
      else if kyc.value > 0.0 && amount as real >= kyc.value && !c.kycApproved then Some(KycRequired)
      else if s.cooldownHours != 0 && c.coolingDown then Some(CooldownActive)
      else if !c.methodVerified && s.requireVerifiedMethod then Some(UnverifiedMethod)
      else None
  }

  /** The decision that `request_withdrawal` takes before it writes anything. */
  function Decide(amount: int, currency: Currency, s: Settings, c: Circumstances): Result<Terms, Refusal> {
    var refusal := Validate(amount, currency, s, c);
    var auto := LimitIn(s.autoPayoutMaximum, currency, s.rate);
    var dual := LimitIn(s.dualApprovalThreshold, currency, s.rate);
    if refusal.Some? then Err(refusal.value)
    else if c.available < amount then Err(InsufficientBalance)
    else if auto.Err? then Err(auto.error)
    else if dual.Err? then Err(dual.error)
    else
      Ok(Terms(
        FeeFor(amount, s),
        match s.payoutMode {
          case Auto => true
          case Hybrid => (amount as real) < auto.value
          case Manual => false
        },
        amount as real >= dual.value))
  }

  /** The amount of a limit, in the currency of the request, bounds the request from below or above. */
  predicate AtLeast(amount: int, limit: Result<real, Refusal>) {
    limit.Ok? && amount as real >= limit.value
  }

  predicate AtMost(amount: int, limit: Result<real, Refusal>) {
    limit.Ok? && amount as real <= limit.value
  }

  /** A request is accepted exactly when it passes every check; what is then decided does not
      depend on the user or the balance. */
  lemma AcceptedIff(amount: int, currency: Currency, s: Settings, c: Circumstances)
    ensures var kyc := LimitIn(s.kycThreshold, currency, s.rate);
            Decide(amount, currency, s, c).Ok? <==>
              && s.enabled && !c.restricted
              && AtLeast(amount, LimitIn(s.minimum, currency, s.rate))
              && AtMost(amount, LimitIn(s.maximum, currency, s.rate))
              && kyc.Ok? && (kyc.value > 0.0 && AtLeast(amount, kyc) ==> c.kycApproved)
              && (s.cooldownHours != 0 ==> !c.coolingDown)
              && (s.requireVerifiedMethod ==> c.methodVerified)
              && amount <= c.available
              && LimitIn(s.autoPayoutMaximum, currency, s.rate).Ok?
              && LimitIn(s.dualApprovalThreshold, currency, s.rate).Ok?
    ensures forall d: Circumstances | Decide(amount, currency, s, c).Ok? && Decide(amount, currency, s, d).Ok? ::
              Decide(amount, currency, s, d) == Decide(amount, currency, s, c)
  {
    hide LimitIn, FeeFor;
  }

  /** What a PKR limit is in another currency: itself in PKR and for zero, else the nearest amount in
      USD, and nothing elsewhere. */
  lemma LimitIs(pkr: real, currency: Currency, rate: real)
    ensures var limit := LimitIn(pkr, currency, rate);
            && (limit.Ok? <==> currency == PKR || pkr == 0.0 || (currency == USD && rate > 0.0))
            && (limit.Ok? ==>
                  if currency == PKR || pkr == 0.0 then limit.value == pkr
                  else limit.value == limit.value.Floor as real && IsNearestEven(pkr / rate, limit.value.Floor))
  {
  }

  /** The terms of an accepted request: its fee, whether it is paid out automatically, and whether it
      needs two approvals. */
  predicate TermsFit(amount: int, currency: Currency, s: Settings, terms: Terms) {
    var auto := LimitIn(s.autoPayoutMaximum, currency, s.rate);
    var dual := LimitIn(s.dualApprovalThreshold, currency, s.rate);
    && IsNearestEven(amount as real * s.feePercent / 100.0 + s.feeFixed, terms.fee)
    && (s.payoutMode == Manual ==> !terms.auto)
    && (s.payoutMode == Auto ==> terms.auto)
    && (s.payoutMode == Hybrid ==> (terms.auto <==> auto.Ok? && auto.value > amount as real))
    && (terms.dual <==> AtLeast(amount, dual))
  }

  /** What a refusal says about the request. */
  predicate Deserved(e: Refusal, amount: int, currency: Currency, s: Settings, c: Circumstances) {
    match e
    case Disabled => !s.enabled
    case RestrictedUser => c.restricted
    case BelowMinimum => !AtLeast(amount, LimitIn(s.minimum, currency, s.rate))
    case AboveMaximum => !AtMost(amount, LimitIn(s.maximum, currency, s.rate))
    case KycRequired => !c.kycApproved && AtLeast(amount, LimitIn(s.kycThreshold, currency, s.rate))
    case CooldownActive => c.coolingDown && s.cooldownHours != 0
    case UnverifiedMethod => !c.methodVerified && s.requireVerifiedMethod
    case InsufficientBalance => c.available < amount
    case NoRate(why) => currency != PKR && (currency == USD ==> s.rate <= 0.0 && why == RateNotPositive)
  }

  /** An accepted request gets its terms, and a refused one a reason that is true. */
  lemma DecisionIsRight(amount: int, currency: Currency, s: Settings, c: Circumstances)
    ensures var r := Decide(amount, currency, s, c);
            && (r.Ok? ==> TermsFit(amount, currency, s, r.value))
            && (r.Err? ==> Deserved(r.error, amount, currency, s, c))
  {
    hide Quantize;
    assert forall pkr: real ::
        var limit := LimitIn(pkr, currency, s.rate);
        limit.Err? ==> limit.error.NoRate? && Deserved(limit.error, amount, currency, s, c);
  }

  lemma ConvertZero(target: Currency, rate: real)
    requires Convert(0.0, PKR, target, rate).Ok?
    ensures Convert(0.0, PKR, target, rate).value == 0
  {
    QuantizeOfInt(0);
    if rate > 0.0 {
      DivideThenMultiply(0.0, rate);
      assert 0.0 / rate == 0.0;
    }
  }

  /** Converting the limits keeps their order, also around the special case for zero. */
  lemma LimitsKeepOrder(low: real, high: real, currency: Currency, rate: real)
    requires low <= high
    requires LimitIn(low, currency, rate).Ok? && LimitIn(high, currency, rate).Ok?
    ensures LimitIn(low, currency, rate).value <= LimitIn(high, currency, rate).value
  {
    ConvertMonotone(low, high, PKR, currency, rate);
    if low == 0.0 && high != 0.0 && currency != PKR {
      ConvertMonotone(0.0, high, PKR, currency, rate);
      ConvertZero(currency, rate);
    }
    if high == 0.0 && low != 0.0 && currency != PKR {
      ConvertMonotone(low, 0.0, PKR, currency, rate);
      ConvertZero(currency, rate);
    }
  }

  /** Threshold order survives conversion: an accepted withdrawal that needs two approvals has
      approved KYC, and in hybrid mode is never paid out automatically. */
  lemma DualApprovalImpliesKycAndManual(amount: int, currency: Currency, s: Settings, c: Circumstances)
    requires s.kycThreshold <= s.dualApprovalThreshold && s.autoPayoutMaximum <= s.dualApprovalThreshold
    requires Decide(amount, currency, s, c).Ok? && Decide(amount, currency, s, c).value.dual
    ensures LimitIn(s.kycThreshold, currency, s.rate).Ok?
    ensures LimitIn(s.kycThreshold, currency, s.rate).value > 0.0 ==> c.kycApproved
    ensures s.payoutMode == Hybrid ==> !Decide(amount, currency, s, c).value.auto
  {
    LimitsKeepOrder(s.kycThreshold, s.dualApprovalThreshold, currency, s.rate);
    LimitsKeepOrder(s.autoPayoutMaximum, s.dualApprovalThreshold, currency, s.rate);
  }

  lemma HalfOrLess(x: real)
    requires x > 0.0
    ensures Quantize(x) >= 0 && (Quantize(x) == 0 <==> x <= 0.5)
  {
  }

  /** A positive PKR limit comes out as zero in a USD wallet exactly when it is worth at most half of
      the smallest unit there. */
  lemma LimitVanishesIff(pkr: real, rate: real)
    requires pkr > 0.0 && rate > 0.0
    ensures LimitIn(pkr, USD, rate).Ok? && LimitIn(pkr, USD, rate).value >= 0.0
    ensures LimitIn(pkr, USD, rate).value == 0.0 <==> pkr <= 0.5 * rate
  {
    hide Quantize;
    var x := pkr / rate;
    DivideThenMultiply(pkr, rate);
    assert x > 0.0 by {
      if x <= 0.0 {
        MulMonotone(x, 0.0, rate);
      }
    }
    HalfOrLess(x);
    if x <= 0.5 {
      MulMonotone(x, 0.5, rate);
    }
    if pkr <= 0.5 * rate {
      DivMonotone(pkr, 0.5 * rate, rate);
      MultiplyThenDivide(0.5, rate);
    }
  }

  /** Every accepted withdrawal of this amount that needs two approvals has approved KYC. */
  ghost predicate DualAlwaysHasKyc(amount: int, currency: Currency, s: Settings) {
    forall c: Circumstances ::
      Decide(amount, currency, s, c).Ok? && Decide(amount, currency, s, c).value.dual ==> c.kycApproved
  }

  /** A limit that rounds to zero is not enforced: where an amount can be accepted with two
      approvals at all, KYC is assured exactly when the converted KYC limit is positive. */
  lemma DualHasKycIffLimitPositive(amount: int, currency: Currency, s: Settings, some: Circumstances)
    requires s.kycThreshold <= s.dualApprovalThreshold && s.autoPayoutMaximum <= s.dualApprovalThreshold
    requires Decide(amount, currency, s, some).Ok? && Decide(amount, currency, s, some).value.dual
    ensures LimitIn(s.kycThreshold, currency, s.rate).Ok?
    ensures DualAlwaysHasKyc(amount, currency, s) <==> LimitIn(s.kycThreshold, currency, s.rate).value > 0.0
  {
    DualApprovalImpliesKycAndManual(amount, currency, s, some);
    if LimitIn(s.kycThreshold, currency, s.rate).value > 0.0 {
      forall c: Circumstances | Decide(amount, currency, s, c).Ok? && Decide(amount, currency, s, c).value.dual
        ensures c.kycApproved
      {
        DualApprovalImpliesKycAndManual(amount, currency, s, c);
      }
    } else {
      var c := some.(kycApproved := false);
      assert Decide(amount, currency, s, c) == Decide(amount, currency, s, some);
    }
  }

  /** In a USD wallet KYC is therefore assured exactly when the PKR limit exceeds half of the rate. */
  lemma DualHasKycInUsdIff(amount: int, s: Settings, some: Circumstances)
    requires s.kycThreshold <= s.dualApprovalThreshold && s.autoPayoutMaximum <= s.dualApprovalThreshold
    requires Decide(amount, USD, s, some).Ok? && Decide(amount, USD, s, some).value.dual
    requires s.kycThreshold > 0.0 && s.rate > 0.0
    ensures DualAlwaysHasKyc(amount, USD, s) <==> s.kycThreshold > 0.5 * s.rate
  {
    hide Decide, LimitIn;
    DualHasKycIffLimitPositive(amount, USD, s, some);
    LimitVanishesIff(s.kycThreshold, s.rate);
  }

  /** Such a limit is not enforced: a request that needs two approvals passes without KYC although
      the PKR limit is positive. */
  lemma VanishedLimitIsNotEnforced(s: Settings)
    requires s.enabled && s.minimum == 0.0 && s.maximum == 100000.0 && s.rate == 280.0
    requires s.kycThreshold == 1.0 && s.autoPayoutMaximum == 0.0 && s.dualApprovalThreshold == 280.0
    ensures s.kycThreshold > 0.0 && s.kycThreshold <= s.dualApprovalThreshold
    ensures var r := Decide(100, USD, s, Circumstances(false, false, false, true, 100));
            r.Ok? && r.value.dual
  {
    hide FeeFor, Quantize;
    var c := Circumstances(false, false, false, true, 100);
    AcceptedIff(100, USD, s, c);
    LimitVanishesIff(1.0, 280.0);
    QuantizeOfInt(1);
    assert 280.0 / 280.0 == 1.0 && 100000.0 / 280.0 >= 101.0;
    NearestIsNear(100000.0 / 280.0);
  }

  lemma NearestIsNear(x: real)
    ensures Quantize(x) as real >= x - 0.5
  {
  }
}
