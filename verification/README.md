# Verified model of the backend's hard cores

This project models the parts of the backend whose behaviour is not obvious from reading one function, and
proves what they do over all inputs, all runs and all configurations. Four families are covered:

1. **Time-driven admission control**: the gateway's request limiter and circuit breaker
   (`RateLimit`, `CircuitBreaker`, `ApiGateway`), attack detection (`DdosProtection`, `DdosWindowBound`) and
   progressive throttling (`RequestThrottle`).
2. **Numeric kernels**: the trend regression (`TrendRegression`), the Wilson score interval
   (`WilsonInterval`), the 32-bit string hash (`StringHash`) and the traffic split (`TrafficSplit`).
3. **State machines**: disputes (`Disputes`), alerts under a health monitor (`Alerts`, `HealthChecks`,
   `Monitoring`), A/B tests (`AbTests`, `AbResults`, `AbService`), versioned reward configurations and the life
   of a reward (`RewardConfigs`, `RewardStatus`, `RewardOverlap`, `RewardEngine`).
4. **Transformations and aggregations**: e-mail templates (`EmailTemplates`), the activity feed's query
   builder and paging (`ActivityFeed`), time buckets (`IntervalGrouping`, `GroupTrends`) and request metrics
   (`RequestMetrics`). `Sequences` and `Grouping` hold the shared vocabulary: filtered sub-sequences, sorting,
   and sums by key, `Requests` the input that the two limiters by address share.

`dafny verify dfyconfig.toml` checks everything.

## How the model is built

- Each stateful service is a pure step function over values, `Run` over a sequence of events, lemmas about
  every run, and a `class` whose methods update fields in place as the source does and are proved equal to
  the steps. Each such class keeps its whole past in a `ghost` field, and `Valid` says that the fields are what
  that past has made of them.
- The clock is an integer given to each step. Where a property needs a clock that never goes back, the lemma
  says so (`Monotone`). Redis and Prisma tables are maps or sequences; each service call is one atomic step,
  except that the two awaited writes of a configuration load interleave freely between engines, and the read
  and the update of a redemption interleave with everything else in `RewardOverlap`. A look-up that names no
  order may find any matching row: which one is a parameter.
- JavaScript numbers are exact integers or reals; the hash alone wraps to 32 bits, as section 7.1.6 of
  ECMA-262 prescribes. A square root is a parameter with its defining equation.
- Thresholds, windows and limits are parameters, so the results hold for every setting unless a lemma names
  the condition.

## Where the code and its documentation disagree

The model follows the code. Each point below is proved by the members it names.

- Disputes: the comments ask for more than half of the members, the code for half rounded up
  (`HalfIsEnough`, `ResolutionHasOneWinner`). A vote that resolves a dispute returns the unresolved copy
  (`ReturnedIsStoredIff`, `ResolvingVoteReturnsOpen`). If the majority drops between two counts both sides can
  qualify at once, and only then (`OneSideAtMostIff`, `ShrinkingLetsOrderDecide`).
- Attack detection: the bound of two windows' worth of requests holds exactly for some constants
  (`BoundHoldsIffSafeTimings`); where it holds the exact maximum can be lower (`MostIsExact`).
- Throttling: the sweeper is invisible, and the excess decides every delay, exactly when one request per
  window is allowed (`SweeperInvisibleIffOneAllowed`, `DelayIsExcessIffOneAllowed`).
- Circuit breaker: a failed trial call re-opens the breaker only if the failure run reaches the threshold
  again; a success recorded while it is open clears the run (`FailedTrialReopens`, `FailedTrialMayNotReopen`).
- Alerts: an alert that fires again after its cooldown leaves the earlier record flagged active for ever
  (`FlagsAreActiveAndLeaks`, `LeakIsForever`, `TwoFiringsLeak`), and the history's active entries are not
  always the active alerts (`HistoryShowsActiveIff`, `ShowsActiveIffNoLeak`). The monitor never clears a
  slowness warning (`WarningIffEverSlow`).
- The hash is documented as a positive 32-bit integer; 2^31 is attained, and so is 0 (`BothEndsAreReached`).
- A/B results: conversions may exceed visitors, and then the interval may not exist (`RealIntervalExactly`,
  `MoreConversionsThanVisitors`). A user is promised one variant: it is counted again on every call exactly
  when its variant has an empty name (`AskedTwice`, `AtMostOneAssignmentIff`, `EmptyNameCountsTwice`). Names of
  tests are not unique, and the reported counts can miss users of a re-created test unless every creation
  lists what every other can select (`VisitorsAddUpIff`, `RecreationLosesVisitors`).
- Templates: an unknown placeholder is documented to stay; a name that every object inherits is not unknown
  to the code (`IdentityIff`, `EmptyMapIsNotTheIdentity`).
- Activity feed: with limit 0, `hasMore` announces a page that never comes (`HasMoreIffNextPage`); continuing
  from the cursor skips rows that tie with it (`CursorContinuesIffNoTie`).
- Reward configurations: names are unique, so loading a version again fails, after the cache was replaced
  (`LoadIsServedStoredIffFirst`). A lower version loaded late leaves the greater one active beside it
  (`InTurnActiveDescend`), and a row stored while a greater version's load is in flight ends up inactive
  (`LandedActiveExactly`, `OverlapDeactivatesTheLater`).
- Rewards: a grant is documented to return the activated record; for tokens and badges it returns the pending
  one (`GrantReward`). A redemption updates by id alone, so one that is overtaken between its read and its
  update succeeds all the same (`BothSucceed`, `BalanceIffNoneLate`).
- Daily trends: buckets step through local midnights and are keyed by UTC dates, so in a zone other than UTC
  the last UTC day can be missing (`ConservesIff`).

## Model

| member | source | states |
|---|---|---|
| `RateLimit.CounterIsPendingTimers` | backend/src/gateway/router.ts:22-41 | in every run, each key's counter equals the number of its expiry timers still pending |
| `RateLimit.ClampNeverBites` | backend/src/gateway/router.ts:34-37 | a timer that fires always finds a count of at least 1, so the clamp at 0 is never needed |
| `RateLimit.DueTimerRuns` | backend/src/gateway/router.ts:34-37 | a timer that is due runs: it is gone, its key's counter is one lower and no other changes |
| `RateLimit.UnexpiredAreLive` | backend/src/gateway/router.ts:22-41 | timers due after any instant not before the clock match the admissions whose window is still running then |
| `RateLimit.WindowBound` | backend/src/gateway/router.ts:22-41 | with timers never early, no half-open interval of length `windowMs` holds more than `maxRequests` admissions of a key |
| `RateLimit.PromptTimersMeanSlidingWindow` | backend/src/gateway/router.ts:22-41 | once due timers have fired the counter limiter admits exactly as a sliding-window log does |
| `RateLimit.LateTimersOnlyRejectMore` | backend/src/gateway/router.ts:22-41 | late timers make it stricter than the sliding-window log, never more permissive |
| `CircuitBreaker.CountersAreHistory` | backend/src/gateway/router.ts:96-112 | `failures` is the length of the trailing failure run and `lastFailureTime` the last failure in the history |
| `CircuitBreaker.PhaseIsHistory` | backend/src/gateway/router.ts:77-112 | open, half-open and closed, each characterised by the call history alone, both ways |
| `CircuitBreaker.RejectionExactly` | backend/src/gateway/router.ts:77-91 | a call is rejected iff an unprobed trip is in the history and the last failure is at most `timeout` ago |
| `CircuitBreaker.FailureRunRejectsUntilTimeout` | backend/src/gateway/router.ts:77-112 | after a run of failures that reached the threshold every check is rejected exactly until more than `timeout` has passed |
| `CircuitBreaker.NotClosedInFailureRun` | backend/src/gateway/router.ts:96-112 | while the trailing failure run is at or above the threshold the breaker is not closed |
| `CircuitBreaker.ClosedMeansBelowThreshold` | backend/src/gateway/router.ts:96-112 | a closed breaker has no failures on count, or fewer than the threshold |
| `CircuitBreaker.ClosedBoundary` | backend/src/gateway/router.ts:63-112 | the breaker leaves `closed` only on the failure that completes a run of `threshold` (at least 1), and returns only on a success while half-open |
| `CircuitBreaker.FailedTrialReopens` | backend/src/gateway/router.ts:104-111 | a failed trial re-opens the breaker iff the failure run then reaches the threshold |
| `CircuitBreaker.FailedTrialMayNotReopen` | backend/src/gateway/router.ts:96-112 | a history in which a trial fails and the breaker stays half-open |
| `CircuitBreaker.ServicesAreIsolated` | backend/src/gateway/router.ts:63-72 | in every interleaving each service's breaker is what its own calls alone would have made it |
| `ApiGateway.APIGateway.RateLimitMiddleware` | backend/src/gateway/router.ts:22-41 | admits iff fewer than `maxRequests` timers of the key are pending; adds exactly one timer when it admits |
| `ApiGateway.APIGateway.RunTimer` | backend/src/gateway/router.ts:34-37 | lowers its own key's counter by exactly one and touches no other |
| `ApiGateway.APIGateway.GetCircuitBreaker` | backend/src/gateway/router.ts:63-72 | returns the stored or a fresh breaker and stores it |
| `ApiGateway.APIGateway.IsCircuitOpen` | backend/src/gateway/router.ts:77-91 | its answer in terms of that service's whole call history |
| `ApiGateway.APIGateway.RecordServiceCall` | backend/src/gateway/router.ts:96-112 | the new failure count is the trailing failure run of that service; no other service changes |
| `DdosProtection.SweepingSimulates` | backend/src/middleware/ddosProtection.ts:21-115 | after any run each address's entry is equivalent to that of the machine that never deletes |
| `DdosProtection.SweeperIsInvisible` | backend/src/middleware/ddosProtection.ts:21-115 | every interleaving of sweeps and requests is answered as if no sweep had run |
| `DdosProtection.AddressesAreIsolated` | backend/src/middleware/ddosProtection.ts:48-115 | an address's entry depends on its own requests alone |
| `DdosProtection.AnswerIsIsolated` | backend/src/middleware/ddosProtection.ts:21-115 | so does the answer, in any run with sweeps |
| `DdosProtection.BlockHolds` | backend/src/middleware/ddosProtection.ts:60-100 | from the request that trips the threshold to `blockDuration` later nothing of that address is passed on and its entry does not change |
| `DdosProtection.RetryAfterIsExact` | backend/src/middleware/ddosProtection.ts:48-115 | waiting a whole number of seconds suffices iff it is at least the announced Retry-After |
| `DdosProtection.KeptIff` | backend/src/middleware/ddosProtection.ts:21-115 | in every run a sweep keeps an address that is not blocked iff its last request is at most two windows ago, and a blocked one iff the request that blocked it is at most the block duration ago or dates from 0 |
| `DdosProtection.Detector.Protect` | backend/src/middleware/ddosProtection.ts:48-115 | the answer is that of the machine that never sweeps, on this address's requests alone |
| `DdosProtection.Detector.Cleanup` | backend/src/middleware/ddosProtection.ts:21-30 | the deletion loop realises one sweep: it keeps exactly the entries whose block has not expired, or whose last request is at most two windows ago, as they were |
| `DdosWindowBound.AccountsAlways` | backend/src/middleware/ddosProtection.ts:48-115 | in every history the admissions split into windows of at most the threshold, spaced by block or window |
| `DdosWindowBound.BoundHolds` | backend/src/middleware/ddosProtection.ts:48-115 | with safe timings no half-open interval of length `window` holds more than `Most` admissions, at most two windows' worth |
| `DdosWindowBound.MostIsReached` | backend/src/middleware/ddosProtection.ts:48-115 | for all safe timings, a history and an interval that hold exactly `Most` admissions |
| `DdosWindowBound.MostIsExact` | backend/src/middleware/ddosProtection.ts:48-115 | a number bounds the admissions of all histories and intervals iff it is at least `Most` |
| `DdosWindowBound.ShortBlocksBreakTheBound` | backend/src/middleware/ddosProtection.ts:48-115 | for every block shorter than half the window, a history that admits more |
| `DdosWindowBound.LateFirstWindowBreaksTheBound` | backend/src/middleware/ddosProtection.ts:48-115 | for every block that ends two ticks before a window would, a history that admits more |
| `DdosWindowBound.BoundHoldsIffSafeTimings` | backend/src/middleware/ddosProtection.ts:15-20 | the bound holds in all runs iff the three constants satisfy `SafeTimings` |
| `DdosWindowBound.AtMostTwoWindowsPassed` | backend/src/middleware/ddosProtection.ts:21-115 | the same bound over whole runs of all addresses with sweeps at any times |
| `RequestThrottle.StoreRepresentsHistory` | backend/src/middleware/requestThrottle.ts:16-64 | what is stored, or not stored, stands for the recent part of the address's whole history |
| `RequestThrottle.QueueIsRecentHistory` | backend/src/middleware/requestThrottle.ts:36-50 | the stored queue is exactly the part of the whole history within the window, in every run with sweeps |
| `RequestThrottle.QueueIsSuffixOfHistory` | backend/src/middleware/requestThrottle.ts:36-50 | that queue is what follows the last request of a window or more ago in the address's whole history, and the request itself |
| `RequestThrottle.KeptIff` | backend/src/middleware/requestThrottle.ts:16-64 | in every run a sweep keeps an entry iff its address's last request is at most ten windows ago |
| `RequestThrottle.DelayIsExcess` | backend/src/middleware/requestThrottle.ts:44-64 | for every setting and run, the delay is the excess of that count over the allowed rate times the step when an entry is stored; without one the request passes |
| `RequestThrottle.DelayIsExcessIffOneAllowed` | backend/src/middleware/requestThrottle.ts:36-64 | the excess decides every request of every run iff at least one request is allowed |
| `RequestThrottle.SweeperIsInvisible` | backend/src/middleware/requestThrottle.ts:16-23 | with at least one request allowed, sweeps never show in an answer |
| `RequestThrottle.SweeperInvisibleIffOneAllowed` | backend/src/middleware/requestThrottle.ts:16-64 | that condition is exact: without it some run shows a sweep |
| `RequestThrottle.Throttle.Limit` | backend/src/middleware/requestThrottle.ts:30-64 | the stored queue, the delay and `delayUntil` in terms of the address's whole history |
| `RequestThrottle.Throttle.DeleteStale` | backend/src/middleware/requestThrottle.ts:16-23 | the deletion loop keeps exactly the entries whose last queued request is at most ten windows ago |
| `TrendRegression.DenominatorClosedForm` | backend/src/services/anomalyDetectionService.ts:464-474 | the denominator is n^2 (n^2 - 1) / 12; the slope is a number exactly from two points on |
| `TrendRegression.SlopeIsLeastSquares` | backend/src/services/anomalyDetectionService.ts:464-474 | the slope, with its intercept, minimises the squared residuals over all lines, and uniquely |
| `TrendRegression.ExactOnLines` | backend/src/services/anomalyDetectionService.ts:464-474 | on points of a line the slope is that line's |
| `TrendRegression.CentredForms` | backend/src/services/anomalyDetectionService.ts:476-481 | the centred sums of the correlation are the raw sums of the slope, scaled by n |
| `TrendRegression.SlopeIsCovarianceRatio` | backend/src/services/anomalyDetectionService.ts:474-479 | the slope equals covariance over variance |
| `TrendRegression.CorrelationMeaning` | backend/src/services/anomalyDetectionService.ts:476-482 | the correlation divides by zero iff all values are equal; otherwise it has the sign of the slope, and its square times the spread around the mean is the spread less the residuals of the fitted line; so it lies in [-1, 1], and at an end exactly on a line |
| `WilsonInterval.ClampsAreNoOps` | backend/src/services/abTestService.ts:347-369 | whenever the interval exists its bounds lie in order within [0, 1] before clamping, and contain the rate iff conversions do not exceed visitors |
| `WilsonInterval.BoundsSolveScoreEquation` | backend/src/services/abTestService.ts:347-369 | x is a bound of the interval iff n (p - x)^2 = 1.96^2 x (1 - x) for n visitors and observed rate p; without visitors both bounds are 0 |
| `WilsonInterval.RealIntervalExactly` | backend/src/services/abTestService.ts:347-369 | the interval exists iff 4 c (c - v) is at most 1.96^2 v; always when conversions do not exceed visitors |
| `WilsonInterval.MoreConversionsThanVisitors` | backend/src/services/abTestService.ts:299-369 | two conversions of one visitor have no interval |
| `StringHash.Round` | backend/src/services/abTestService.ts:235-238 | one shift, subtraction and AND is one Horner step on signed 32-bit residues |
| `StringHash.HashString` | backend/src/services/abTestService.ts:233-241 | the loop computes the absolute signed 32-bit residue of the sum of c[i] 31^(n-1-i), within [0, 2^31] |
| `StringHash.BothEndsAreReached` | backend/src/services/abTestService.ts:233-241 | the empty text has hash 0, and a text of five code units has hash 2^31 |
| `TrafficSplit.AssignVariant` | backend/src/services/abTestService.ts:209-224 | picks the first variant whose cumulative traffic exceeds the residue; for an accepted configuration the fallback is unreachable |
| `TrafficSplit.AssignedByInterval` | backend/src/services/abTestService.ts:209-224 | with non-negative traffic a variant gets exactly the residues between its two cumulative sums |
| `TrafficSplit.ShareIsCeilingDifference` | backend/src/services/abTestService.ts:46-51 | how many of the 100 residues a variant gets, for any accepted non-negative traffic |
| `TrafficSplit.ShareNearTraffic` | backend/src/services/abTestService.ts:209-224 | that share is within about one point of the configured traffic |
| `TrafficSplit.ExactShares` | backend/src/services/abTestService.ts:209-224 | whole percentages that sum to 100 are met exactly |
| `AbTests.AtMostOneAssignment` | backend/src/services/abTestService.ts:78-100 | a user for whom every creation of the name selects a named variant has at most one assignment event, through stops and re-creations and whichever tests are found |
| `AbResults.AtMostOneAssignmentIff` | backend/src/services/abTestService.ts:78-100 | for all runs with given creations of a test, a user has at most one assignment iff each of them selects a named variant for it |
| `AbResults.AskedTwice` | backend/src/services/abTestService.ts:78-100 | asked twice, a user has one assignment event iff the selected variant is named, else two |
| `AbTests.AssignmentSticks` | backend/src/services/abTestService.ts:78-100 | an assigned user keeps the variant in every continuation |
| `AbTests.CurrentIsLatest` | backend/src/services/abTestService.ts:251-266 | the variant on record is that of the user's latest assignment event for the test, if it names one |
| `AbTests.ConversionsFollowAssignment` | backend/src/services/abTestService.ts:113-127 | every conversion is booked on its user's variant, for good |
| `AbTests.FoundIsCreated` | backend/src/services/abTestService.ts:46-86 | whichever row a look-up finds, its variants are those of some creation of the name; a look-up that does not ask for activity fails only if there was none |
| `AbTests.AssignmentsAreFromCreations` | backend/src/services/abTestService.ts:78-100 | every assignment ever made is the hash's choice in one of the creations of its test |
| `AbResults.VisitorsAddUpToUsers` | backend/src/services/abTestService.ts:137-155 | in every run whose creations of a name cover each other, and whichever test is found, the reported visitor counts add up to the distinct users assigned |
| `AbResults.ConversionsAddUp` | backend/src/services/abTestService.ts:113-155 | in the same runs the reported conversions add up to the TrackConversion calls that succeeded |
| `AbResults.SameVariantsAreCovered` | backend/src/services/abTestService.ts:46-67 | creations that all carry the same named variants cover each other |
| `AbResults.VisitorsAddUpIff` | backend/src/services/abTestService.ts:137-155 | the exact condition on the creations, over the residues of 100, for the reported counts to add up in all runs and for all tests found |
| `AbResults.RecreationLosesVisitors` | backend/src/services/abTestService.ts:137-155 | a test stopped and created again with another variant: its user is in none of the counts reported from the first |
| `AbResults.EmptyNameCountsTwice` | backend/src/services/abTestService.ts:251-266 | with an empty variant name one user is counted on every call |
| `AbService.ABTestService.CreateTest` | backend/src/services/abTestService.ts:46-67 | accepts iff the summed traffic is within 0.01 of 100, and then appends one active test |
| `AbService.ABTestService.AssignUser` | backend/src/services/abTestService.ts:78-100 | returns the variant on record, or appends one assignment to a variant of an active test of the name: the first whose cumulative traffic exceeds the user's hash modulo 100 |
| `AbService.ABTestService.TrackConversion` | backend/src/services/abTestService.ts:113-127 | appends one conversion on the variant on record, or fails for an unassigned user |
| `AbService.ABTestService.StopTest` | backend/src/services/abTestService.ts:172-198 | deactivates one test of the name and touches nothing else; an error iff no test has the name |
| `AbService.ABTestService.GetTestResults` | backend/src/services/abTestService.ts:137-163 | for each variant of a test of the name, once, the numbers of assignment and conversion events that carry it; stably sorted, no variant converting a smaller share than a later one, once all have 100 visitors, and as listed before; in covered runs they add up to the users and the successful conversions; an error iff no test has the name |
| `Disputes.VotingMeansUndecided` | backend/src/services/disputeService.ts:129-200 | while a dispute is in voting each side has less than half of the members last counted, through re-votes, tallies, escalations, rulings and any changes of the group |
| `Disputes.CountOutcome` | backend/src/services/disputeService.ts:162-200 | a count resolves to yes iff twice the yes votes reach the members, else to no iff twice the no votes do, else escalates iff the deadline has passed |
| `Disputes.VoteTakenIff` | backend/src/services/disputeService.ts:49-147 | in every run from filing a vote is taken iff voting is open, the voter is a member and no more than the voting window has passed since filing; else the error is the first of these that fails |
| `Disputes.FullTurnoutDecides` | backend/src/services/disputeService.ts:129-200 | voting is pending only while somebody has not voted |
| `Disputes.ResolutionHasOneWinner` | backend/src/services/disputeService.ts:162-200 | when half rounded up has not dropped since the last count, a community resolution happens on a vote, for the side voted for, with twice its votes equal to the members, plus one if they are odd, and the other side below half |
| `Disputes.OneSideAtMostIff` | backend/src/services/disputeService.ts:176-192 | the order of the two checks is irrelevant for counts at one size after another iff half rounded up does not drop between them |
| `Disputes.HalfIsEnough` | backend/src/services/disputeService.ts:176-180 | one vote of two resolves |
| `Disputes.ShrinkingLetsOrderDecide` | backend/src/services/disputeService.ts:176-192 | a run from filing after which a member leaves, both sides qualify and yes wins |
| `Disputes.VotesAndDecisionFreeze` | backend/src/services/disputeService.ts:129-234 | once voting is over it never re-opens and votes and decision never change |
| `Disputes.DecisionMeansCommunityResolved` | backend/src/services/disputeService.ts:162-234 | a decision is on record iff the community resolved the dispute at some point |
| `Disputes.ReturnedIsStoredIff` | backend/src/services/disputeService.ts:129-151 | the returned dispute has the vote, never the resolution; it is the stored one iff that vote brings neither side to half of the members and the deadline has not passed at the count |
| `Disputes.ResolvingVoteReturnsOpen` | backend/src/services/disputeService.ts:129-151 | a vote that resolves the stored dispute and returns it open |
| `Disputes.OnlyMembersVoted` | backend/src/services/disputeService.ts:129-151 | every vote on record was cast by a member of that moment |
| `Disputes.DisputeService.FileDispute` | backend/src/services/disputeService.ts:49-89 | refuses strangers unchanged; a filed dispute is open without votes until the voting window after filing, has an empty history, and is indexed under its group |
| `Disputes.DisputeService.ListGroupDisputes` | backend/src/services/disputeService.ts:109-117 | exactly the disputes of the group, each once |
| `Disputes.DisputeService.VoteOnDispute` | backend/src/services/disputeService.ts:129-151 | each error leaves the store as it was; a vote that leaves the dispute open leaves each side below half, with somebody still to vote |
| `Disputes.DisputeService.TryAutoResolve` | backend/src/services/disputeService.ts:162-200 | one count of the dispute; in a dispute still in voting each side has less than half of the members |
| `Disputes.DisputeService.EscalateToAdmin` | backend/src/services/disputeService.ts:209-216 | escalates from any status, changing nothing else, with an error for an unknown dispute |
| `Disputes.DisputeService.AdminResolve` | backend/src/services/disputeService.ts:226-234 | records the ruling and leaves votes, community decision and all other disputes alone |
| `Alerts.KeyIsInjective` | backend/src/monitoring/alerting.ts:59-61 | the text key separates service and severity for all service names |
| `Alerts.AlwaysConsistent` | backend/src/monitoring/alerting.ts:59-118 | in every run the active map points at the latest unresolved record of each key, and cooling keys are active |
| `Alerts.CooldownsAreActiveAlerts` | backend/src/monitoring/alerting.ts:59-118 | without manual resets exactly the active keys cool down, each since its record fired |
| `Alerts.UnresolvedFiringsAreSpaced` | backend/src/monitoring/alerting.ts:59-72 | two firings of a key, the earlier unresolved, are at least the cooldown apart |
| `Alerts.RecordedIffNoneRecent` | backend/src/monitoring/alerting.ts:59-84 | a firing is recorded iff no unresolved firing of its service and severity is less than the cooldown ago; else it leaves no trace |
| `Alerts.ResetAllowsFiring` | backend/src/monitoring/alerting.ts:59-140 | after a manual reset every firing is recorded, and the reset itself changes no record and no active alert |
| `Alerts.ResolvesLatestAlone` | backend/src/monitoring/alerting.ts:102-118 | a resolution resolves the latest firing of its service and severity, if that is unresolved, and changes no other record |
| `Alerts.FiringLeaksIffUnresolved` | backend/src/monitoring/alerting.ts:59-118 | a firing leaves a stale active record iff its key was still active |
| `Alerts.LeakIsForever` | backend/src/monitoring/alerting.ts:95-118 | such a record stays flagged active in every continuation |
| `Alerts.FlagsAreActiveAndLeaks` | backend/src/monitoring/alerting.ts:59-118 | in every run, of all records ever fired, those flagged active are as many as the active alerts and the firings that leaked |
| `Alerts.HistoryShowsActiveIff` | backend/src/monitoring/alerting.ts:123-148 | the active entries of the stored history are exactly the active alerts iff no unresolved firing in it was superseded and every active alert is among the last 500 firings |
| `Alerts.ShowsActiveIffNoLeak` | backend/src/monitoring/alerting.ts:123-148 | as long as nothing was dropped, they are iff no firing leaked |
| `Alerts.TwoFiringsLeak` | backend/src/monitoring/alerting.ts:59-118 | two firings one cooldown apart and a resolution: no active alert, one record still flagged |
| `HealthChecks.ObserveActivity` | backend/src/monitoring/healthMonitor.ts:107-146 | what one check does to the set of active alerts |
| `HealthChecks.CriticalIffDown` | backend/src/monitoring/healthMonitor.ts:107-146 | after a poll a checked dependency has an active critical alert iff the poll found it down, whoever else used the service |
| `HealthChecks.FailureCountIsTrailingDowns` | backend/src/monitoring/healthMonitor.ts:107-146 | the stored failure count is the trailing run of failed checks |
| `HealthChecks.CheckAsks` | backend/src/monitoring/healthMonitor.ts:107-146 | what one check asks of the alerting service: a down dependency is reported with its trailing run of failed checks, any other is cleared and, if too slow, reported with its time and limit |
| `HealthChecks.WarningIffEverSlow` | backend/src/monitoring/healthMonitor.ts:37-146 | a slowness warning is active iff some check ever took more than 500 ms for the database, 100 for redis, 2000 for stellar, 3000 for e-mail, 1000 for any other |
| `Monitoring.AlertingService.Push` | backend/src/monitoring/alerting.ts:143-148 | the history is always the last 500 firings |
| `Monitoring.AlertingService.Fire` | backend/src/monitoring/alerting.ts:59-84 | one firing on shared records, suppressed within the cooldown |
| `Monitoring.AlertingService.Resolve` | backend/src/monitoring/alerting.ts:102-118 | clears the shared record of the key wherever it is held |
| `Monitoring.AlertingService.GetHistory` | backend/src/monitoring/alerting.ts:123-129 | of the last 500 firings, in order and with the flags as they are now, exactly those of the severity and the service asked for, and only active ones if asked |
| `Monitoring.HealthMonitor.Observe` | backend/src/monitoring/healthMonitor.ts:107-146 | one dependency's result: failure count and alerts |
| `Monitoring.HealthMonitor.RunChecks` | backend/src/monitoring/healthMonitor.ts:102-160 | after each poll, critical alerts match the results and counts match the history of checks, whoever else has used the alerting service |
| `EmailTemplates.EscapeIsSimultaneous` | backend/src/emails/templateEngine.ts:233-239 | four sequential replacements are one substitution per character |
| `EmailTemplates.EscapeAt` | backend/src/emails/templateEngine.ts:233-239 | at every position: which entity each marked character becomes, with the text around it escaped on its own |
| `EmailTemplates.DecodeEscape` | backend/src/emails/templateEngine.ts:233-239 | decoding recovers every text |
| `EmailTemplates.EscapedIsClean` | backend/src/emails/templateEngine.ts:233-239 | no raw angle bracket or quote remains, and every ampersand starts an entity |
| `EmailTemplates.PlaceholderSplits` | backend/src/emails/templateEngine.ts:166-170 | around any placeholder the template is processed in parts, and inserted text is never scanned |
| `EmailTemplates.InsertedText` | backend/src/emails/templateEngine.ts:166-170 | a given variable's placeholder is replaced by its value, one of a name only inherited by the inherited text, and any other stays, with the rest of the template processed on its own |
| `EmailTemplates.NameCodes` | backend/src/emails/templateEngine.ts:167 | a name is one or more letters, digits and underscores |
| `EmailTemplates.UnknownPlaceholdersStay` | backend/src/emails/templateEngine.ts:166-170 | a template with unknown placeholders only is left as it is |
| `EmailTemplates.SinglePlaceholderStaysIff` | backend/src/emails/templateEngine.ts:166-170 | exactly when a placeholder stays |
| `EmailTemplates.IdentityIff` | backend/src/emails/templateEngine.ts:166-170 | injection is the identity on all templates iff every known name stands for its own placeholder |
| `EmailTemplates.EmptyMapIsNotTheIdentity` | backend/src/emails/templateEngine.ts:166-170 | a template that changes although no variable is given |
| `ActivityFeed.BuildWhere` | backend/src/services/activity.service.ts:93-127 | for every combination of filters placeholder k is bound to parameter k and the clause selects exactly the rows asked for |
| `ActivityFeed.GetFeed` | backend/src/services/activity.service.ts:93-171 | the page and the limit that the query asks for, 1 and 20 by default and the limit at most 100, cut from exactly the matching rows, with total, `hasMore` and cursor; only a negative limit fails |
| `ActivityFeed.WantedRows` | backend/src/services/activity.service.ts:100-127 | a row matches iff it passes every filter that is given and not empty |
| `ActivityFeed.PagesArePrefix` | backend/src/services/activity.service.ts:93-171 | the answers to a query's pages 1 to m together are the first m times limit of the matching rows |
| `ActivityFeed.PagesAreEverything` | backend/src/services/activity.service.ts:93-171 | enough pages together are all of them, in order |
| `ActivityFeed.HasMoreIffNextPage` | backend/src/services/activity.service.ts:160-171 | `hasMore` announces a non-empty page, exactly when the limit is at least 1 or nothing matches |
| `ActivityFeed.CursorContinuesIffNoTie` | backend/src/services/activity.service.ts:160-171 | continuing from the cursor gives exactly the rows after the page iff the next row does not tie with the last |
| `RewardConfigs.StoredIsFirstLoaded` | backend/src/services/RewardEngine.ts:26-39 | in every interleaving a configuration is stored iff it was the first loaded with its version |
| `RewardConfigs.LoadIsServedStoredIffFirst` | backend/src/services/RewardEngine.ts:26-76 | a loaded configuration is served by its engine for good; it is what the table holds iff its version was new or equal |
| `RewardConfigs.ActiveIffNotSuperseded` | backend/src/services/RewardEngine.ts:26-50 | in every interleaving of loads a stored row is active iff no load of a greater version has finished since the row was stored |
| `RewardConfigs.LandedActiveExactly` | backend/src/services/RewardEngine.ts:26-50 | once no load is in flight, a row is active iff no later row has a greater version and it was not stored while a greater load was in flight |
| `RewardConfigs.ActiveIffNoLaterGreaterExactly` | backend/src/services/RewardEngine.ts:26-50 | exactly when the active rows are then those without a greater version stored later |
| `RewardConfigs.FreshEngineServesGreatest` | backend/src/services/RewardEngine.ts:59-76 | however loads interleave, an engine without a cache serves the greatest version ever loaded, and fails iff nothing was loaded |
| `RewardConfigs.InTurnActiveExactly` | backend/src/services/RewardEngine.ts:26-50 | when loads do not overlap a row is active iff no later row has a greater version |
| `RewardConfigs.InTurnActiveDescend` | backend/src/services/RewardEngine.ts:26-50 | active versions descend in load order; the last row alone is active iff it is the greatest |
| `RewardConfigs.OverlapDeactivatesTheLater` | backend/src/services/RewardEngine.ts:26-50 | two overlapping loads after which the row stored last is inactive |
| `RewardEngine.RewardEngine.LoadConfiguration` | backend/src/services/RewardEngine.ts:26-50 | stores iff no engine loaded the version before, with every lower version inactive afterwards; a refused load replaces the cache only |
| `RewardEngine.RewardEngine.GetConfiguration` | backend/src/services/RewardEngine.ts:59-76 | the cache, else the greatest version any engine ever loaded, as it was first loaded; an error iff none was |
| `RewardStatus.Balance` | backend/src/services/RewardEngine.ts:362-405 | when redemptions do not overlap, in every run the rewards granted are the redemptions plus the expiries reported plus the rewards still open |
| `RewardStatus.ClosedForGood` | backend/src/services/RewardEngine.ts:362-405 | a redeemed or expired reward never changes |
| `RewardStatus.RedemptionOutcome` | backend/src/services/RewardEngine.ts:362-386 | which error a redemption gets, and the one status it changes when it gets none |
| `RewardStatus.ShownOrJustExpiring` | backend/src/services/RewardEngine.ts:340-377 | what is listed can be redeemed, and the converse fails only in the millisecond of expiry; redeemable means active and not past the expiry |
| `RewardStatus.ShownIdsAre` | backend/src/services/RewardEngine.ts:340-353 | a listing shows exactly the active rewards of the user, of the kind asked for, that have not reached their expiry |
| `RewardStatus.KeepsWhatWasGranted` | backend/src/services/RewardEngine.ts:190-405 | in every run a reward stays its user's, of its kind, and keeps the expiry it was granted with, which tokens and badges do not have |
| `RewardStatus.SweeperIsInvisible` | backend/src/services/RewardEngine.ts:340-405 | grants, redemptions and listings are answered as if no expiry sweep had run, up to the wording of refusals |
| `RewardOverlap.ReadThenWriteIsRedeem` | backend/src/services/RewardEngine.ts:362-386 | a redemption that nothing overlaps is one atomic step |
| `RewardOverlap.ActiveIffNotOvertaken` | backend/src/services/RewardEngine.ts:362-405 | in every interleaving, a reward whose redemption is in flight is active iff no other redemption or sweep closed it since the read |
| `RewardOverlap.LateRedemptionsCountTwice` | backend/src/services/RewardEngine.ts:362-405 | in every interleaving grants plus overtaken redemptions are the redemptions plus the expiries reported plus the rewards still open |
| `RewardOverlap.BalanceIffNoneLate` | backend/src/services/RewardEngine.ts:362-405 | the balance holds iff no redemption was overtaken between its read and its update |
| `RewardOverlap.BothSucceed` | backend/src/services/RewardEngine.ts:362-386 | two overlapping redemptions of one reward that both succeed |
| `RewardEngine.RewardEngine.RedeemReward` | backend/src/services/RewardEngine.ts:362-386 | succeeds iff the reward is active and not past its expiry, and then changes that one status; each error changes nothing |
| `RewardEngine.RewardEngine.ExpireRewards` | backend/src/services/RewardEngine.ts:393-405 | exactly the active rewards past their expiry change, none is left, and the count is the number of rewards that changed |
| `RewardEngine.RewardEngine.GrantReward` | backend/src/services/RewardEngine.ts:149-330 | appends one active reward, with the expiry only for discounts and premium features; the record returned is the one created, still pending for tokens and badges |
| `RewardEngine.RewardEngine.GetActiveRewards` | backend/src/services/RewardEngine.ts:340-353 | exactly the active rewards of the user, of the kind asked for, that have not reached their expiry, latest first |
| `Grouping.GroupsAddUp` | backend/src/services/advancedAnalyticsService.ts:313-319 | over distinct keys the groups add up to exactly the elements whose key is a group |
| `IntervalGrouping.GroupDataByInterval` | backend/src/services/anomalyDetectionService.ts:312-340 | strictly increasing starts, exactly the multiples of so many minutes within which an event falls, each with the number of its events or the sum of their field |
| `IntervalGrouping.GroupingIsUnique` | backend/src/services/anomalyDetectionService.ts:312-336 | no other series meets that description |
| `IntervalGrouping.GroupingConserves` | backend/src/services/anomalyDetectionService.ts:312-336 | the points add up to the events |
| `GroupTrends.BuildBuckets` | backend/src/services/advancedAnalyticsService.ts:350-368 | the cursor loop makes one empty bucket for each day of `BucketDays`, in order |
| `GroupTrends.BucketDaysAre` | backend/src/services/advancedAnalyticsService.ts:350-378 | which days have a bucket, for every zone offset |
| `GroupTrends.AllCoveredIff` | backend/src/services/advancedAnalyticsService.ts:350-378 | every instant of the range has a bucket iff the range is empty or ends no earlier in the UTC day than local midnight falls |
| `GroupTrends.GetGroupTrends` | backend/src/services/advancedAnalyticsService.ts:304-326 | one entry for each day whose local midnight lies less than a day before the range or in it, in order, with the number and volume of exactly the group's contributions of the range on that UTC day |
| `GroupTrends.TrendsTotals` | backend/src/services/advancedAnalyticsService.ts:304-326 | the buckets add up to exactly the contributions before the last bucket's end |
| `GroupTrends.ConservesIff` | backend/src/services/advancedAnalyticsService.ts:304-378 | counts and volumes are conserved for all data iff the same condition on range and zone holds; in UTC always |
| `RequestMetrics.PercentileSplits` | backend/src/middleware/performance.ts:107-120 | strictly more than p percent of the samples take at most the percentile, at most p percent take less, and it is a sample |
| `RequestMetrics.PercentilesOrdered` | backend/src/middleware/performance.ts:113-120 | a higher rank has no shorter percentile |
| `RequestMetrics.RoutesAreDistinct` | backend/src/middleware/performance.ts:129 | route names separate method and path |
| `RequestMetrics.RoutesConserve` | backend/src/middleware/performance.ts:125-135 | the routes' counts, durations and errors add up to those of the buffer |
| `RequestMetrics.Metrics.Record` | backend/src/middleware/performance.ts:44-48 | the buffer is always the last 5000 samples of the history |
| `RequestMetrics.Metrics.GetRequestMetrics` | backend/src/middleware/performance.ts:102-123 | count, average duration, share of statuses from 500 on, 95th and 99th percentile and last minute's number, each of the stored samples and rounded to the nearest hundredth, with p95 at most p99 |
| `RequestMetrics.Metrics.CollectRoutes` | backend/src/middleware/performance.ts:125-135 | each route once, with the number, the total duration and the errors of exactly its samples |
| `RequestMetrics.Metrics.GetRouteMetrics` | backend/src/middleware/performance.ts:125-145 | one row for each method and path seen and no other, with the count, rounded average and rounded share of statuses from 500 on of exactly its samples, slowest first, the counts making up the buffer |

## Left out

- Express requests and responses, header and address extraction, JWT, logging, Redis, Prisma, Postgres, queues and mail: I/O. Only the state they hold is modelled.
- Environment parsing of thresholds (a text that is no number gives NaN) and the event loop's clamping of very long delays.
- Interleavings inside one dispute or assignment call (two reads before either write): each call is atomic.
- Monitoring.HealthMonitor.RunChecks: results are handled one after the other, where the source starts them concurrently; each dependency has its own slots.
- Alerts: the dispatch of alerts to webhooks and the snapshot the monitor keeps.
- WilsonInterval.ClampsAreNoOps: over the reals with an exact square root; rounding, and the NaN results that follow when no root exists, are not modelled.
- p-values, the normal distribution, winner selection, severity tables and recommendation texts.
- AbService: end dates, metrics and winners of a test.
- TrafficSplit: how user ids spread over the 100 residues; residues are counted, not users. Variants come in the order in which the object lists its keys.
- Disputes.DisputeService.FileDispute: category, summary and evidence fields, and the generation of ids.
- EmailTemplates: MJML compilation, the template cache, plain-text conversion and row building.
- ActivityFeed.GetFeed: rendering of columns and of instants as text; rows come in one fixed order.
- RewardConfigs: JSON encoding of a configuration, taken to be lossless; distribution to users, fraud checks and configuration validation.
- RewardStatus: the failed status, which nothing here sets, and discounts computed from the listed rewards.
- IntervalGrouping.GroupDataByInterval: events whose timestamp is no date, and an interval of zero minutes, which no caller asks for; the pairing of error and total series by index.
- GroupTrends: one fixed zone offset, so no daylight saving; dates beyond the year 9999; week and month buckets, whose stepping does not cover every key.
- RequestMetrics.Metrics.GetRequestMetrics: the budgets repeated in the report, and the exponent form of figures from 10^21 on.
- `getDdosStats`, `ipBlocklist`, `getHealth` and other read-only views.
- Sagas, shard ranges, event parsing, gamification, multisig, payouts and refunds: their state lives in files that are not part of this model.
