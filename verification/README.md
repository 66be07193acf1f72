# Models of the platform's money, limits and message catalogues

This project models the parts of the platform that must not go wrong and proves what they keep.

- **Ledger** (`Ledger.dfy`, `LedgerStore.dfy`, `LedgerRuns.dfy`, `PostingProtocol.dfy`, `Accounts.dfy`): a
  double-entry ledger with idempotency keys, cached balances and reversals; once as a value, once as a store that is
  updated in place, and once as interleaved steps of concurrent postings with row locks. `LedgerRuns` says what every
  run of its calls keeps.
- **Money services** (`MoneyTables.dfy`, `Refinement.dfy`, `ServiceContracts.dfy`, `Platform.dfy`, `Lifecycles.dfy`,
  `Fates.dfy`, `Accounting.dfy`, `PlatformRuns.dfy`, `Coverage.dfy`): rewards, withdrawals, deposits and adjustments.
  `MoneyTables` is a machine of tables without any ledger in which each row says what it contributes to each account.
  `Platform` is the database with its step-by-step services. Its invariant says that every balance is the one that the
  tables call for, and `Replay` proves this for every run.
- **Amounts** (`Decimals.dfy`, `RewardMath.dfy`, `WithdrawalPolicy.dfy`): half-even rounding, conversion, reward
  shares and withdrawal limits. Money is counted in units of 1e-8 and points in units of 1e-2.
- **Offers** (`Offers.dfy`, `OfferContracts.dfy`, `OfferDesk.dfy`, `OfferRuns.dfy`, `SiteRuns.dfy`): postbacks,
  eligibility and campaign quotas, and what they keep over whole runs. **Games** (`Games.dfy`, `GameContracts.dfy`,
  `GameHall.dfy`, `GameRuns.dfy`): the same for game sessions.
- **Message catalogues** (`Utf8.dfy`, `MoFile.dfy`, `MoReader.dfy`, `PoStrings.dfy`, `PoFile.dfy`, `PoMeaning.dfy`,
  `Catalogues.dfy`): the `.po` parser and the `.mo` writer, against a reader that follows section 10.3 of the GNU
  gettext manual.
- `Outcomes.dfy`, `Sums.dfy` and `Calendar.dfy` hold what the others share.

Services that change rows are classes. Each method is proved equal to a function on values, about which most of what
the platform promises is then proved, over every run; and each is proved to keep what its callers are promised, told
from its arguments, the rows and the balances before and after the call, without these functions. A raised exception
leaves the state of the enclosing atomic block as it was. Rows are identified by their position in a table, times are
microseconds in UTC, and settings, clocks, rates and the answers of other services are parameters.

## Where the code differs from what one might expect

- `confirm_deposit` takes the platform's account in USD but the user's account in the wallet's currency, so the ledger
  refuses every deposit to a wallet that is not in USD (`Refinement.DepositCreditPostsIff`,
  `PlatformRuns.ConfirmForeignDeposit`).
- `reverse_transaction` never saves the link from a transaction to its reversal. That there is only one reversal rests
  on its key (`LedgerRuns.AtMostOneReversal`).
- An explicit second approver may be the first approver again. The admin view never passes one
  (`Lifecycles.DualApprovalIff`, `Lifecycles.ExplicitSecondApproverCanRepeat`).
- A KYC limit that rounds to zero in the wallet's currency is not enforced (`WithdrawalPolicy.LimitVanishesIff`,
  `WithdrawalPolicy.VanishedLimitIsNotEnforced`).
- A game rule that pays nothing makes ending a session raise, and the session stays open (`Games.EndRaisesIff`,
  `GameRuns.EmptyRuleRaises`).
- `end_session` takes the end of a session from one reading of the clock and `_rule_available` reads it again. Around
  midnight a rule can therefore reward one session more than its limit for the day of their ends, and the cooldown is
  measured to the later reading (`GameRuns.LimitsPassedIff`, `GameRuns.MidnightPassesDailyLimit`,
  `GameRuns.CooldownMeasuredLate`).
- Because the four replacements of `_unquote` run one after the other, the usual escapes of a backslash before `n` or
  `t` are not read back (`PoStrings.QuotedRoundTripIff`); splitting the string there helps (`PoFile.ParsePrintedMap`).

## Model

| member | source | states |
|---|---|---|
| LedgerStores.LedgerStore.PostTransaction | apps/ledger/services.py:21-89 | A used key answers with its transaction and changes nothing; no entries, entries that do not sum to zero, over all or in a currency, or unknown accounts raise, each with its own error; otherwise exactly one transaction with the key and entries is added and every balance moves by the net of its entries. |
| LedgerStores.LedgerStore.SumsByCurrency | apps/ledger/services.py:53-55 | The dictionary has one total for each currency that occurs, and each is the sum of that currency's amounts. |
| LedgerStores.LedgerStore.ApplyEntries | apps/ledger/services.py:83-87 | The loop over the entries moves every cached balance by the net amount of its entries, also when one transaction names an account several times. |
| LedgerStores.LedgerStore.ReverseTransaction | apps/ledger/services.py:92-115 | A posted transaction gets one compensation under its own key that takes back on every account what it moved, and is marked reversed; no other transaction changes. A repeated call finds that compensation and changes nothing, whatever stale status or unsaved link the caller holds. The ledger stays in order. |
| LedgerStores.LedgerStore.AccountBalance | apps/ledger/services.py:118-121 | The aggregate over the entries is the account's ledger sum, zero without entries. |
| LedgerStores.LedgerStore.VerifyAccountBalance | apps/ledger/services.py:124-126 | The check compares cache and ledger, and it always succeeds in a ledger that is in order. |
| LedgerStores.LedgerStore.GetAccount | apps/wallets/services.py:34-57 | An account of every kind but points in the wallet's currency, the points account and the one asked for exist afterwards, new ones at zero, and no balance changes. |
| LedgerStores.LedgerStore.TotalLiability | apps/wallets/services.py:108-123 | The aggregate is the sum of the user-owed balances of one currency, without those of the platform. |
| Ledger.PostCreatesIff | apps/ledger/services.py:39-67 | A posting is created if and only if it has entries, its key is unused, every currency sums to zero and all accounts exist; the overall zero check is implied. |
| Ledger.BalancedIffZero | apps/ledger/services.py:53-58 | The check over the currencies that occur is the same as zero in every currency. |
| Ledger.CurrencyZerosGiveTotalZero | apps/ledger/services.py:46-58 | Entries that sum to zero in each currency sum to zero overall. |
| Ledger.PostingKeeps | apps/ledger/services.py:68-89 | A new posting keeps the ledger in order: cached balances equal the sums of entries, every transaction and the books as a whole balance in every currency, keys stay unique. |
| Ledger.UndoKeeps | apps/ledger/services.py:92-115 | A reversal keeps the ledger in order, takes exactly the net amounts of its transaction back, and leaves the state of every other key alone. |
| Ledger.ReversalPosts | apps/ledger/services.py:92-115 | Reversing always succeeds: a posted transaction gets a new compensation, a reversed one its existing one. |
| LedgerRuns.BooksAlwaysClose | apps/ledger/services.py:21-115 | From the empty ledger on, after any postings, reversals and openings of accounts, cached balances equal the sums of their entries, every transaction balances in every currency, all balances of a currency add up to zero and no key was used twice. |
| LedgerRuns.AtMostOneReversal | apps/ledger/services.py:101-108 | After any such calls a transaction is marked reversed if and only if it has a reversal; it has one at most, which comes later and cancels it on every account. |
| LedgerRuns.HistoryIsKept | apps/ledger/services.py:93-115 | Whatever calls follow, a recorded transaction keeps its key and entries, and a reversed one stays reversed. |
| LedgerRuns.Replay | apps/ledger/services.py:21-115 | The services, called in any order and for reversals with any stale status or link, leave exactly the book of that run. |
| Ledger.UndoKeysKeeps | apps/rewards/services.py:442-447 | Reversing by a list of keys takes back exactly the live postings among them. |
| Accounts.KeyTextsNeverCollide | apps/rewards/services.py:290-366 | The texts of idempotency keys are equal only for equal keys, as long as row identifiers contain no colon. |
| PostingProtocol.EveryScheduleIsSerial | apps/ledger/services.py:41-89 | Any interleaving of the steps of any number of postings ends in the state of the committed ones run one after the other in commit order, each of them created on its own and with its balance check true at its turn. |
| PostingProtocol.NoLostUpdate | apps/ledger/services.py:68-87 | After any interleaving each balance is the initial one plus what all committed postings moved. |
| PostingProtocol.KeyPostedAtMostOnce | apps/ledger/services.py:41-44 | No two committed postings of any interleaving share an idempotency key. |
| PostingProtocol.LoserFindsWinner | apps/ledger/services.py:76-80 | A posting that returns an existing transaction has committed nothing and returns the one with its key. |
| PostingProtocol.RequestReserves | apps/withdrawals/services.py:132-142 | The posting of a withdrawal request under its balance check takes exactly the checked amount from the cash account. |
| PostingProtocol.ReservationsAreCovered | apps/withdrawals/services.py:94-97 | However concurrent requests interleave, the cash account is never overdrawn: together they reserve no more than there was and what others added. |
| Platforms.Platform.Replay | apps/rewards/services.py:126-447 | After any sequence of reward, withdrawal, deposit and adjustment calls, with any arguments and errors, the tables are those of the table machine and every account balance is the one that the tables call for. |
| Platforms.Platform.MakeAward | apps/rewards/services.py:126-205 | A claim is rewarded once; a payout in a currency that does not convert raises. Otherwise the new row is for the caller's user, source and reference, in the currency asked for, else the rule's, else PKR; it has exactly the cash, points and share that are owed under the first rule that is not passed over; it is approved exactly if the caller says so or, where the caller says nothing, the rule is not manual; its amounts are with the user or on hold, and no other balance changes. |
| Platforms.AwardedRowKeepsRule | apps/rewards/services.py:164-173 | The row that an award creates never has more cash than its rule's maximum, and exactly the fixed amounts of a rule that names only such. |
| Platforms.Platform.AwardFixed | apps/rewards/services.py:207-234 | The new row has the given amounts, rounded half-even, without rule or share, in the given currency; a known claim is returned without any change, and amounts of which none is positive raise. |
| Platforms.Platform.Issue | apps/rewards/services.py:236-331 | A claim gets one row with exactly the amounts asked for, unless none is positive; each balance moves by its positive cash and points, to the user if it is approved at once and else on hold. |
| Platforms.Platform.ApproveReward | apps/rewards/services.py:333-381 | A pending reward becomes approved and its positive cash and points move from hold to the user, and no other balance changes; an approved reward is left alone and others raise. |
| Platforms.Platform.HoldReward | apps/rewards/services.py:383-391 | Only a pending reward can be held, and no balance changes. |
| Platforms.Platform.RejectReward | apps/rewards/services.py:393-403 | A pending reward becomes rejected and its positive amounts move from hold back to the platform; others raise and change nothing. |
| Platforms.Platform.ReverseReward | apps/rewards/services.py:405-447 | A pending or approved reward becomes reversed and its positive amounts move back to the platform from where they are; a reversed one is left alone together with the ledger, and a rejected one raises. |
| Platforms.Platform.ProcessPendingRewards | apps/rewards/tasks.py:13-34 | Exactly the pending rewards that are old enough, not held and not under a manual rule become approved, and the reported number is how many they were. |
| Platforms.Platform.RequestWithdrawal | apps/withdrawals/services.py:83-149 | A request is accepted if and only if it passes every check, the last being that its amount is at most the user's cash in the ledger. Then the new row has the user, amount, currency and time of the request, its fee and terms, status REQUESTED and no approver, and exactly the requested amount moves from the user's cash to locked, with no other balance changed. A refusal gives a reason that is true and changes nothing. |
| Coverage.CashAfter | apps/withdrawals/services.py:94-137 | From an empty database on, however many requests are made, no user's cash is ever below zero, unless an approved reward is reversed, a negative adjustment made or a withdrawal of a negative amount rejected. |
| Platforms.Platform.ApproveWithdrawal | apps/withdrawals/services.py:152-177 | Approving an open withdrawal that needs no second approval makes it PROCESSING whoever approves; one that needs two becomes PROCESSING exactly if two approvers are then recorded, else UNDER_REVIEW. An approver other than the first one, or the second approver he names, is recorded as the second; without an approver nobody is recorded. |
| Fates.WithdrawalFate | apps/withdrawals/services.py:152-241 | On every run the status of a withdrawal is determined by its own calls: REJECTED if and only if it is rejected before it is paid, PAID if and only if it is paid after the approvals it needs and before any rejection, otherwise PROCESSING if and only if it has these approvals: one of any kind, or two by different people. |
| Fates.ApprovalsSuffice | apps/withdrawals/services.py:166-176 | On every run without a rejection, one approval makes a withdrawal that needs one PROCESSING or PAID, and approvals by two people one that needs two. |
| Platforms.Platform.MarkPaid | apps/withdrawals/services.py:180-210 | An approved or processing withdrawal becomes PAID and exactly its amount moves from locked to the platform; other statuses raise and change nothing. |
| Platforms.Platform.RejectWithdrawal | apps/withdrawals/services.py:213-241 | A withdrawal that is not final becomes REJECTED and exactly its amount moves from locked back to the user's cash; final ones raise and change nothing. |
| Platforms.Platform.CreateDeposit | apps/deposits/services.py:37-86 | A deposit of a positive amount awaits payment for one hour, for the user and amount given, in the currency given or else the wallet's; other amounts and disabled deposits raise. |
| Platforms.Platform.ConfirmDeposit | apps/deposits/services.py:89-122 | An open deposit to a USD wallet becomes confirmed and exactly its amount moves from the platform's USD cash to the user's; a confirmed one is left alone; a closed one raises; for another wallet currency the ledger refuses and everything is as before. |
| Platforms.Platform.ExpireDeposits | apps/deposits/tasks.py:10-20 | Exactly the created or awaiting deposits whose time has come become expired. |
| Platforms.Platform.AdjustBalance | apps/wallets/services.py:126-154 | A positive adjustment moves its amount from the platform's cash to the user's, a negative one the other way; zero raises; no other balance changes. |
| Refinement.IssueKeeps | apps/rewards/services.py:278-321 | Creating a reward and posting its positive cash and points keeps every balance equal to the one the tables call for. |
| Refinement.ApprovalKeeps | apps/rewards/services.py:342-381 | The two approval postings turn the footprint of a pending reward into that of an approved one on every account. |
| Refinement.ReversalKeeps | apps/rewards/services.py:405-447 | Reversing the postings under the keys of a reward's status removes its whole footprint. |
| Refinement.NewWithdrawalKeeps | apps/withdrawals/services.py:132-149 | Reserving a withdrawal moves its amount from cash to locked and changes no other balance. |
| PlatformRuns.BalancesAfter | apps/rewards/services.py:126-447 | From an empty database on, after any calls, the balances of a user and the platform's pending points, computed from the entries, are sums over the tables of the run, and liability and platform cash cancel. |
| Accounting.PendingAndLocked | apps/rewards/services.py:292-308 | Whatever the run, a user's PENDING is the sum of max(0, cash) of pending rewards in that currency, and LOCKED the sum of withdrawals that are neither paid nor rejected. |
| Accounting.CashBalance | apps/withdrawals/services.py:132-241 | CASH is approved rewards, credited deposits and adjustments, less the withdrawals that were not rejected. |
| Accounting.PointsBalances | apps/wallets/services.py:79-101 | A user's POINTS are the approved points, and the platform's pending points account holds all pending points. |
| Accounting.LiabilityMirrorsPlatformCash | apps/wallets/services.py:108-123 | For every money currency, the liability to users and the platform's cash account sum to zero. |
| Accounting.LiabilityFromTables | apps/wallets/services.py:108-154 | The liability is live rewards plus confirmed deposits plus adjustments, less paid withdrawals. |
| PlatformRuns.WithdrawalKeysAfter | apps/withdrawals/services.py:132-241 | From an empty database on, after any calls, the ledger holds the reserve of every withdrawal, a payout of it if and only if it is paid and a refund of it if and only if it is rejected, each with its amount. |
| Accounting.RunWithoutDropsRowIff | apps/rewards/services.py:405-447 | Leaving out all calls about one reward gives, call by call, the run with just that row missing, if and only if no accepted withdrawal request needed the cash of that reward. |
| Accounting.ReversedRewardLeavesNoTrace | apps/rewards/services.py:405-447 | Once a reward is reversed or rejected, every balance is that of the run without it, however its calls were interleaved with all others, unless a withdrawal request was accepted that its cash alone made possible. |
| Accounting.ReversalIsIdempotent | apps/rewards/services.py:405-432 | Reversing a reversed reward changes nothing. |
| Fates.RewardFate | apps/rewards/services.py:333-432 | On every run the status of a pending reward is determined by the calls about it: approved if and only if some call approves it before any rejection or reversal and none reverses it, where the periodic run for pending rewards approves only old enough ones that are not held and not manual; rejected and reversed by whichever comes first. |
| Fates.ApprovedRewardFate | apps/rewards/services.py:405-432 | On every run a reward that was approved at once stays approved until a reversal names it, and is reversed from then on. |
| Lifecycles.RunEvolves | apps/rewards/services.py:333-432 | On every run rows keep their identity and only move forward: paid and rejected withdrawals, closed rewards and final deposits never change again. |
| Lifecycles.ClaimsStayUnique | apps/rewards/models.py:140-146 | On every run there is at most one reward per user, source and reference. |
| Lifecycles.AwardIsIdempotent | apps/rewards/services.py:255-260 | After any run, awarding for the same claim again returns the first reward and changes nothing. |
| Lifecycles.DualApprovalOnEveryRun | apps/withdrawals/services.py:152-177 | When approvals are called as the admin view does, a withdrawal that needs two approvals is processing or paid only with two different approvers recorded. |
| Lifecycles.DualApprovalIff | apps/withdrawals/services.py:152-177 | On every run, dual approval means two different approvers if and only if no call on an open withdrawal names its first approver again on behalf of another person; otherwise some withdrawal keeps one person as both approvers for good. |
| Lifecycles.ExplicitSecondApproverCanRepeat | apps/withdrawals/services.py:160-168 | A concrete pair of calls with an explicit second approver that records the same person twice and starts processing. |
| Lifecycles.DepositRun | apps/deposits/services.py:89-122 | On every run a deposit's status is what its own confirm calls and the expiry calls alone determine. |
| Lifecycles.CreditedIffConfirmedInTime | apps/deposits/services.py:90-122 | A deposit is credited if and only if its wallet is in USD and it was confirmed before any expiry call after its time. |
| Refinement.DepositCreditPostsIff | apps/deposits/services.py:98-112 | Whenever the ledger follows the tables, it accepts the entries that confirming an open nonzero deposit posts if and only if the wallet is in USD, and otherwise refuses them as unbalanced per currency. |
| PlatformRuns.ConfirmForeignDeposit | apps/deposits/services.py:89-122 | Confirming an open nonzero deposit to a wallet that is not in USD raises because the posting is refused, and leaves every row and the whole ledger as they were. |
| PlatformRuns.DepositCreditAfter | apps/deposits/services.py:90-122 | A deposit that awaits payment after any calls is credited in the ledger by any further calls, with its amount, if and only if the wallet is in USD and it is confirmed before an expiry call reaches its deadline. |
| Decimals.Quantize | apps/payments/services.py:28-39 | The result is a nearest integer, and the even one of two equally near. |
| Decimals.NearestEvenIsUnique | apps/payments/services.py:28-39 | Half-even rounding is determined by these two conditions. |
| Decimals.ConvertMonotone | apps/payments/services.py:24-41 | Conversion keeps the order of amounts, and whether it succeeds does not depend on the amount. |
| Decimals.UsdSurvivesRoundTrip | apps/payments/services.py:24-41 | USD to PKR and back is the identity on every 8-place amount when the rate is at least 1. |
| Decimals.UsdRoundTripIffRateAtLeastOne | apps/payments/services.py:24-41 | It is the identity on all amounts if and only if the rate is at least 1. |
| Decimals.PkrRoundTripBound | apps/payments/services.py:24-41 | PKR to USD and back is off by at most half a unit times the rate and half a unit. |
| RewardMath.ResolveRule | apps/rewards/services.py:46-88 | The loop finds the first rule, in priority order, that is not passed over: switched off, for another source, provider, campaign, country or tier, or with a payout outside its range; and none if there is none. |
| RewardMath.CalculateRewardParts | apps/rewards/services.py:90-117 | The sequential additions and the multiplication at the end give the percentage, fixed and points parts; a zero multiplier counts as one. |
| RewardMath.AwardComesTo | apps/rewards/services.py:90-183 | Computing an award raises if and only if a payout is given whose currency does not convert; otherwise the amounts are exactly those owed: the percentage of the payout times the multiplier, rounded once if converted, plus the fixed amount, rounded and capped; the points likewise; and as share what the cash, converted back, leaves of the payout. |
| RewardMath.FixedRulePaysItsAmounts | apps/rewards/services.py:100-117 | A rule with only fixed amounts pays exactly these when its multiplier is 0 or 1. |
| RewardMath.AwardGrowsWithPayout | apps/rewards/services.py:164-173 | A higher payout never earns less cash or fewer points, through conversion, both roundings and the cap. |
| RewardMath.CashNeverExceedsCap | apps/rewards/services.py:171-173 | The user's cash never exceeds the rule's maximum. |
| RewardMath.CashWithinRevenue | apps/rewards/services.py:164-173 | A rule without a fixed cash amount and with percentage times multiplier at most 100 never pays more cash than the whole revenue converts to, between currencies that convert. |
| RewardMath.PlatformShareNotNegative | apps/rewards/services.py:175-183 | For such a rule, with equal currencies or USD revenue paid in PKR at a rate of at least 1, the platform share is never negative after both roundings and the cap. |
| RewardMath.PlatformShareNotNegativeIff | apps/rewards/services.py:175-183 | For a rule without a fixed cash amount and without a cap, with equal currencies or USD revenue paid in PKR at a rate of at least 1, the share is non-negative for all revenues if and only if percentage times multiplier is at most 100. |
| RewardMath.PlatformShareBound | apps/rewards/services.py:175-183 | For a rule without a fixed cash amount and with percentage times multiplier at most 100, at every positive rate, the share is at least minus half a unit and half a unit of the reward currency in the revenue currency: for USD revenue paid in PKR and for PKR revenue paid in USD. |
| WithdrawalPolicy.AcceptedIff | apps/withdrawals/services.py:45-130 | A request is accepted exactly when it passes every check, and what is decided then does not depend on the user or the balance. |
| WithdrawalPolicy.DecisionIsRight | apps/withdrawals/services.py:30-142 | An accepted request gets the nearest fee, is automatic exactly as the payout mode and limit say, and needs two approvals exactly from the limit on; a refusal is for a reason that is true. |
| WithdrawalPolicy.LimitIs | apps/withdrawals/services.py:30-36 | A PKR limit is itself in PKR and when it is zero, the nearest USD amount at a positive rate, and nothing in other currencies. |
| WithdrawalPolicy.LimitsKeepOrder | apps/withdrawals/services.py:30-36 | Converting two limits keeps their order, also around the special case for zero. |
| WithdrawalPolicy.DualApprovalImpliesKycAndManual | apps/withdrawals/services.py:57-130 | With ordered PKR limits, an accepted withdrawal that needs two approvals has approved KYC if the converted KYC limit is positive, and in hybrid mode is not automatic. |
| WithdrawalPolicy.DualHasKycIffLimitPositive | apps/withdrawals/services.py:64-68 | KYC is assured for such withdrawals if and only if the converted KYC limit did not round to zero. |
| WithdrawalPolicy.LimitVanishesIff | apps/withdrawals/services.py:30-36 | A positive PKR limit comes out as zero in USD if and only if it is at most half of the rate, in the smallest units. |
| WithdrawalPolicy.DualHasKycInUsdIff | apps/withdrawals/services.py:64-68 | In a USD wallet KYC is therefore assured if and only if the PKR limit exceeds half of the rate. |
| WithdrawalPolicy.VanishedLimitIsNotEnforced | apps/withdrawals/services.py:64-68 | A concrete request with a positive KYC limit that needs two approvals and is accepted without KYC. |
| OfferDesks.OfferDesk.Replay | apps/offers/services.py:219-376 | Any sequence of postbacks, quota tasks and money calls does to conversions, quotas, offers, tables and ledger what the site machine says. |
| OfferDesks.OfferDesk.ProcessPostback | apps/offers/services.py:219-376 | An invalid signature, an unreadable payload, a recorded id and an unknown user leave site and ledger as they were, each with its own answer. Otherwise a new id is recorded as rejected if the provider did not approve it, some reason of ineligibility holds or the risk is 51 or more, and is else converted, with a row about the delivery, an award in USD for its payout under the first rule for it, and one more conversion in its quota, unless awarding raises and leaves everything as it was. |
| SiteRuns.EveryConversionHasDelivery | apps/offers/services.py:239-361 | On every run each conversion stems from a postback with a valid signature and a readable payload, an approved one from a postback that the provider approved, and its reward is exactly what is owed for the payout of that postback. |
| OfferDesks.OfferDesk.Bump | apps/offers/services.py:195-216 | The quota, created if there was none, counts exactly one conversion more in all and in the current hour and UTC day, which start again when they are over; the offer is paused exactly if its day is then full; nothing else changes. |
| OfferDesks.OfferDesk.RecalculateCampaignQuotas | apps/offers/tasks.py:68-101 | Exactly the counters whose time is over start again at zero, exactly the offers that were paused by their quota and have room under both caps become active, and the two reported numbers are exactly how many. |
| OfferDesks.OfferDesk.EvaluateOffer | apps/offers/eligibility.py:36-109 | The reasons collected by the chain of checks, with counts taken from the conversions, decide eligibility. |
| OfferDesks.OfferDesk.CountCompletions | apps/offers/eligibility.py:80-98 | The two queries count the user's conversions of the offer that were not rejected, in all and on the day. |
| Offers.EligibleIff | apps/offers/eligibility.py:36-109 | A user is eligible exactly when no reason holds and the risk score is below 51, and the reasons given are exactly those that hold. |
| Offers.ShownLimitsAgree | apps/offers/services.py:31-63 | The numbers shown are what is left of the daily, lifetime and campaign limits after the completed conversions; an eligible conversion is never shown as impossible, and one that is shown as possible is never refused for a limit that is shown. |
| OfferRuns.DailyCapHolds | apps/offers/services.py:196-216 | On every run with monotone clocks at most daily_global_cap conversions of an offer are counted on a UTC day. |
| OfferRuns.HourlyCapHolds | apps/offers/tasks.py:77-99 | On every such run at most twice hourly_cap conversions are counted in any interval of 3600 seconds. |
| OfferRuns.CapsBoundApprovals | apps/offers/services.py:356-361 | The same two bounds hold for the times of approval that the rows record, although the counters follow the later clock of the quota. |
| OfferRuns.UserLimitsHold | apps/offers/eligibility.py:80-98 | On every such run a user's conversions that were not rejected stay within the lifetime and daily limits, and at one when multiple completion is off, also for offers that postbacks create during the run. |
| OfferRuns.OneConversionOneReward | apps/offers/services.py:256-263 | On every run, whatever the clocks say, each provider and external id has at most one conversion, and each approved conversion exactly one reward, of the amount that its row shows. |
| SiteRuns.ConversionCreditAfter | apps/offers/services.py:328-361 | From an empty database on, after any postbacks, quota tasks and money calls, an approved conversion has exactly one reward, whose pending cash and points the ledger holds once each while the reward lives and has reversed when it does not; any other conversion has no reward. |
| OfferRuns.ReplayChangesNothing | apps/offers/services.py:256-263 | After any run, delivering a recorded id again leaves conversions, rewards, ledger tables, offers and quotas unchanged. |
| GameHalls.GameHall.Replay | apps/games/services.py:21-182 | Any sequence of session starts, session ends and money calls does what the arcade machine says. |
| GameHalls.GameHall.StartSession | apps/games/services.py:21-42 | A session starts if and only if games are enabled, the game is known and available, and the user has started it less often today than it allows; otherwise nothing changes. |
| GameHalls.GameHall.EndSession | apps/games/services.py:106-155 | A playing session is invalidated if it is too short. Any other is ended and rewarded under the first rule that is not passed over, with a new approved reward in PKR of exactly the rule's points or cash; a rule is passed over if it is off, for another game, its minimum score or duration is not reached, its cooldown is not over or a limit is used up. If that rule pays nothing the call raises and changes nothing. |
| GameHalls.GameHall.RuleAvailable | apps/games/services.py:158-182 | A rule is available exactly if no other session of the user and game ended within its cooldown and fewer than its limits ended on this UTC day and in this month. |
| GameHalls.GameHall.PickRule | apps/games/services.py:135-153 | The loop stops at the first rule that is not passed over. |
| Games.EndRaisesIff | apps/games/services.py:140-149 | Ending a session raises if and only if the first rule that applies pays nothing in its mode and there is no reward yet. |
| GameRuns.EmptyRuleRaises | apps/games/services.py:140-149 | A concrete run on which ending a session that is long enough raises, because its rule pays no points. |
| GameRuns.EndOutcome | apps/games/services.py:106-155 | Whenever a session is ended on a run: if it is long enough it is rewarded under the first rule whose minimum score and duration it reaches, that is active, for its game, past its cooldown and below its limits, with exactly that rule's amounts; the call raises exactly when that rule pays nothing; without such a rule, or too short, it gets nothing. |
| GameRuns.RewardedOnceAndEarned | apps/games/services.py:106-149 | On every run a session has at most one reward row, and has one only if it ended, was long enough by the clock, and reached the minimum score and duration of a rule that is active and for its game; the row pays that rule's amount in PKR. |
| GameRuns.CooldownHolds | apps/games/services.py:161-168 | On every run, when the rule of a rewarded session was looked at, each session of that user and game that ended before had been over for more than the cooldown; so their ends lie more than the cooldown apart, up to the time from the end to that look. |
| GameRuns.CooldownAtEveryReward | apps/games/services.py:161-168 | Whenever a call of a run rewards a session, all sessions of that user and game that were ended by earlier calls have been over for more than the rule's cooldown. |
| Calendar.MonthOfIff | apps/games/services.py:178-182 | The month that the monthly limit goes by is the month of the Gregorian calendar whose days include the day of the clock. |
| GameRuns.CooldownMeasuredLate | apps/games/services.py:161-168 | A concrete run in which two rewarded sessions ended exactly the cooldown apart, because the rule was looked at later. |
| GameRuns.GameLimitsHold | apps/games/services.py:170-182 | On every run rewards under a rule stay within daily_max for sessions that ended on a UTC day and were rewarded by its end, with at most one more in all across midnight, likewise monthly_max per month, and started sessions within max_daily_sessions per day. |
| GameRuns.LimitsPassedIff | apps/games/services.py:170-182 | A rewarding call passes the limit of the day, or month, in which its session ended if and only if the rule was looked at after that day, or month, and the limit was used up. |
| GameRuns.MidnightPassesDailyLimit | apps/games/services.py:170-174 | A concrete run with a daily limit of one in which two sessions of one day are rewarded. |
| Utf8.DecodeEncode | scripts/compile_messages.py:82-83 | A strict UTF-8 decoder gives every encoded string back. |
| Utf8.EncodeDecode | scripts/compile_messages.py:82-83 | Only the encoding of a string decodes to it. |
| Utf8.EncodeKeepsOrder | scripts/compile_messages.py:67 | Code point order of strings and byte order of their encodings agree in both directions. |
| MoFile.SortKeys | scripts/compile_messages.py:67 | The keys are the one strictly ascending list of the map's keys. |
| MoFile.SortingIsUnique | scripts/compile_messages.py:67 | A set of keys has only one ascending list. |
| MoFile.CollectStrings | scripts/compile_messages.py:72-87 | The two buffers hold the encoded strings, each ended by NUL, and the position lists their lengths and starts. |
| MoFile.PackTable | scripts/compile_messages.py:99-102 | A table is packed if all its lengths and offsets fit a signed 32-bit field, and is refused otherwise. |
| MoFile.WriteMo | scripts/compile_messages.py:61-102 | The file is written with header, key table, value table, keys and values if and only if every packed field fits. |
| MoReader.ReadsBack | scripts/compile_messages.py:61-102 | A reader that follows section 10.3 of the GNU gettext manual recovers exactly the entries. |
| MoReader.LayoutIsSound | scripts/compile_messages.py:61-102 | Header, descriptors, keys and values follow each other without gaps or overlaps, with nothing after them; every string ends in a NUL of its own, every length and offset fits a signed 32-bit field, the hash fields are zero, and the key table is in ascending byte order. |
| MoReader.LookupIsRight | scripts/compile_messages.py:61-102 | Binary search in the compiled file finds every key with its value, and nothing for any other string. |
| MoReader.RefusedOnlyAboveTwoGib | scripts/compile_messages.py:89-102 | Every catalogue whose file has at most 2 GiB is written. |
| PoStrings.UnescapeEscape | scripts/compile_messages.py:16-25 | The exact result of the four replacements on any escaped string: a backslash directly before n or t makes a line feed or tab of that letter. |
| PoStrings.QuotedRoundTripIff | scripts/compile_messages.py:16-25 | A quoted string is read back unchanged if and only if it has no backslash directly before n or t. |
| PoFile.ParsePo | scripts/compile_messages.py:28-58 | The loop over the lines with its four variables gives the entries of the line machine, the last one flushed at the end. |
| PoMeaning.ParsedIsMeaning | scripts/compile_messages.py:28-58 | Every text is parsed to what its lines mean: each message with the lines that continue it before a translation starts, and its last translation with the lines that continue that; later messages replace equal earlier ones, and lines of any other kind do not matter. |
| PoFile.LinesSplit | scripts/compile_messages.py:41 | Every text is its lines and their breaks, of which only the last may be missing, and a carriage return and a line feed are one break. |
| PoStrings.StripIs | scripts/compile_messages.py:42 | Stripping takes blanks from both ends, all of them and nothing else. |
| PoStrings.UnquoteIs | scripts/compile_messages.py:16-25 | Only a text with a quotation mark at both ends loses them, and a single mark leaves nothing. |
| PoFile.NoiseIsIgnored | scripts/compile_messages.py:41-44 | Blank lines and comments inserted anywhere change nothing. |
| PoFile.ParsedPrint | scripts/compile_messages.py:28-58 | Entries printed over any number of continuation lines are parsed to exactly this map, a later entry replacing an earlier one. |
| PoFile.OneLinePrintIff | scripts/compile_messages.py:16-58 | A map printed with one line for each string is parsed back if and only if none of its strings has a backslash directly before n or t. |
| PoFile.ParsePrintedMap | scripts/compile_messages.py:28-58 | Split after such backslashes, every map without line breaks other than line feeds is parsed back. |
| PoFile.ParsableIff | scripts/compile_messages.py:28-58 | A map is the content of some catalogue text if and only if its strings have no line breaks other than line feeds. |
| Catalogues.CompileCatalogue | scripts/compile_messages.py:105-119 | For every text, the compiled file holds exactly the entries that its lines mean, for a full read and for a lookup of any key. |
| Catalogues.EndToEnd | scripts/compile_messages.py:28-102 | Printing, parsing, writing and reading is the identity on every such map that fits. |

## Left out

- PostingProtocol.EveryScheduleIsSerial: interleaves single postings and balance checks over accounts that exist
  already; all other services are modelled as calls that happen one after the other, so two postbacks for one offer or
  two ends of one user's sessions never overlap.
- GameRuns.GameLimitsHold: the limits and minimum times of games are arbitrary but fixed during a run.
- OfferRuns.DailyCapHolds: the caps are arbitrary but fixed during a run, and a postback reads the clock four times in
  order.
- OfferRuns.HourlyCapHolds: the same.
- OfferRuns.CapsBoundApprovals: the same.
- OfferRuns.UserLimitsHold: the limits of the offer are arbitrary but fixed during a run.
- Decimal's context of 28 digits and the width of numeric columns: arithmetic is exact, followed by rounding.
- Identifiers: rows are numbered in order of creation instead of having random identifiers; that key texts of
  identifiers without colons do not collide is proved separately.
- The platform's own account never earns, requests or deposits as a user.
- Descriptive fields (descriptions, metadata, references, risk levels, tokens, addresses, telemetry events) and the
  log rows of postbacks.
- Provider adapters, signatures and payment gateways: a postback has a validity bit and a normalised conversion.
- Automation events, notifications and audit logs, which only add further calls or deliver messages.
- Withdrawal statuses APPROVED, FAILED and CANCELLED, which no modelled service enters.
- The operating system check of eligibility, since postbacks never pass an operating system.
- Catalogue files: decoding on reading and the byte order of other machines; the writer is modelled as little-endian.
- Contexts, plural forms and hash tables of `.mo` files, which the compiler does not write.
- Referrals, surveys, advertisements, reports, content pages, support, views, serializers, administration and
  migrations.
