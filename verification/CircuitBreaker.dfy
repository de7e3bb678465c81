/** The gateway's circuit breaker, one per service, and what its three mutable fields mean in terms
    of the whole history of calls. */
module CircuitBreaker {
  import opened Sequences

  datatype Config = Config(threshold: int, timeout: int)

  datatype Phase = Closed | Open | HalfOpen

  datatype Breaker = Breaker(failures: nat, lastFailureTime: int, phase: Phase)

  const FRESH := Breaker(0, 0, Closed)

  /** `Check` asks whether the circuit is open; `Record` reports the result of a call. */
  datatype Call = Check(now: int) | Record(success: bool, now: int)

  predicate Rejects(c: Config, b: Breaker, now: int) {
    b.phase == Open && now - b.lastFailureTime <= c.timeout
  }

  function Step(c: Config, b: Breaker, call: Call): Breaker {
    match call
    case Check(now) =>
      if b.phase == Open && !Rejects(c, b, now) then b.(phase := HalfOpen) else b
    case Record(success, now) =>
      if success then
        Breaker(0, b.lastFailureTime, if b.phase == HalfOpen then Closed else b.phase)
      else
        Breaker(b.failures + 1, now, if b.failures + 1 >= c.threshold then Open else b.phase)
  }

  function Replay(c: Config, h: seq<Call>): Breaker {
    if h == [] then FRESH else Step(c, Replay(c, h[..|h| - 1]), h[|h| - 1])
  }

  // ---- The history, without any breaker ----

  /** The number of failures recorded since the last recorded success. */
  function TrailingFailures(h: seq<Call>): nat {
    if h == [] then 0
    else match h[|h| - 1]
      case Check(_) => TrailingFailures(h[..|h| - 1])
      case Record(success, _) => if success then 0 else TrailingFailures(h[..|h| - 1]) + 1
  }

  /** The time of the last recorded failure, 0 when there is none. */
  function LastFailure(h: seq<Call>): int {
    if h == [] then 0
    else match h[|h| - 1]
      case Check(_) => LastFailure(h[..|h| - 1])
      case Record(success, now) => if success then LastFailure(h[..|h| - 1]) else now
  }

  /** Call `i` is a failure that completes a run of at least `threshold` consecutive failures. */
  ghost predicate TripsAt(c: Config, h: seq<Call>, i: nat) {
    i < |h| && h[i].Record? && !h[i].success && TrailingFailures(h[..i + 1]) >= c.threshold
  }

  /** Call `i` is a check made more than `timeout` after the last failure before it. */
  ghost predicate ProbesAt(c: Config, h: seq<Call>, i: nat) {
    i < |h| && h[i].Check? && h[i].now - LastFailure(h[..i]) > c.timeout
  }

  ghost predicate SucceedsAt(h: seq<Call>, i: nat) {
    i < |h| && h[i].Record? && h[i].success
  }

  /** Some failure run tripped the breaker and nothing has probed it since. */
  ghost predicate TrippedUnprobed(c: Config, h: seq<Call>) {
    exists i: nat :: UnprobedSince(c, h, i)
  }

  ghost predicate UnprobedSince(c: Config, h: seq<Call>, trip: nat) {
    TripsAt(c, h, trip) && forall j: nat :: trip < j ==> !ProbesAt(c, h, j)
  }

  /** A trip was followed by a probe, its first, and since that probe there was neither a success nor
      another trip. */
  ghost predicate ProbedUndecided(c: Config, h: seq<Call>) {
    exists i: nat, j: nat :: UndecidedSince(c, h, i, j)
  }

  ghost predicate UndecidedSince(c: Config, h: seq<Call>, trip: nat, probe: nat) {
    && trip < probe && TripsAt(c, h, trip) && ProbesAt(c, h, probe)
    && (forall k: nat :: trip < k < probe ==> !ProbesAt(c, h, k))
    && (forall k: nat :: probe < k ==> !SucceedsAt(h, k) && !TripsAt(c, h, k))
  }

  lemma PrefixAgrees(c: Config, h: seq<Call>, call: Call, i: nat)
    requires i < |h|
    ensures TripsAt(c, h + [call], i) == TripsAt(c, h, i)
    ensures ProbesAt(c, h + [call], i) == ProbesAt(c, h, i)
    ensures SucceedsAt(h + [call], i) == SucceedsAt(h, i)
  {
    assert (h + [call])[..i + 1] == h[..i + 1];
    assert (h + [call])[..i] == h[..i];
  }

  lemma {:induction false} CountersAreHistory(c: Config, h: seq<Call>)
    ensures Replay(c, h).failures == TrailingFailures(h)
    ensures Replay(c, h).lastFailureTime == LastFailure(h)
  {
    if h != [] {
      CountersAreHistory(c, h[..|h| - 1]);
    }
  }

  lemma PrefixesAgree(c: Config, g: seq<Call>, call: Call)
    ensures var h := g + [call];
            && (forall i: nat :: i < |g| ==> TripsAt(c, h, i) == TripsAt(c, g, i))
            && (forall i: nat :: i < |g| ==> ProbesAt(c, h, i) == ProbesAt(c, g, i))
            && (forall i: nat :: i < |g| ==> SucceedsAt(h, i) == SucceedsAt(g, i))
  {
    hide TripsAt, ProbesAt, SucceedsAt;
    forall i: nat | i < |g|
      ensures TripsAt(c, g + [call], i) == TripsAt(c, g, i) && ProbesAt(c, g + [call], i) == ProbesAt(c, g, i)
      ensures SucceedsAt(g + [call], i) == SucceedsAt(g, i)
    {
      PrefixAgrees(c, g, call, i);
    }
  }

  lemma OnlyCalls(c: Config, h: seq<Call>)
    ensures forall i: nat :: i >= |h| ==> !TripsAt(c, h, i)
    ensures forall i: nat :: i >= |h| ==> !ProbesAt(c, h, i)
    ensures forall i: nat :: i >= |h| ==> !SucceedsAt(h, i)
  {
  }

  lemma UnprobedStep(c: Config, g: seq<Call>, call: Call, trip: nat)
    ensures var h := g + [call];
            UnprobedSince(c, h, trip)
            <==> if trip < |g| then UnprobedSince(c, g, trip) && !ProbesAt(c, h, |g|)
                 else trip == |g| && TripsAt(c, h, |g|)
  {
    PrefixesAgree(c, g, call);
    OnlyCalls(c, g);
    OnlyCalls(c, g + [call]);
    hide TripsAt, ProbesAt;
  }

  lemma TrippedStep(c: Config, g: seq<Call>, call: Call)
    ensures var h := g + [call];
            TrippedUnprobed(c, h) <==> TripsAt(c, h, |g|) || (TrippedUnprobed(c, g) && !ProbesAt(c, h, |g|))
  {
    var h := g + [call];
    assert forall i: nat :: UnprobedSince(c, g, i) ==> i < |g|;
    hide UnprobedSince, TripsAt, ProbesAt;
    forall i: nat
      ensures UnprobedSince(c, h, i) <==> if i < |g| then UnprobedSince(c, g, i) && !ProbesAt(c, h, |g|)
                                          else i == |g| && TripsAt(c, h, |g|)
    {
      UnprobedStep(c, g, call, i);
    }
    if TripsAt(c, h, |g|) {
      assert UnprobedSince(c, h, |g|);
    }
  }

  lemma StillUndecided(c: Config, g: seq<Call>, call: Call, trip: nat, probe: nat)
    requires probe < |g|
    ensures var h := g + [call];
            UndecidedSince(c, h, trip, probe)
            <==> UndecidedSince(c, g, trip, probe) && !SucceedsAt(h, |g|) && !TripsAt(c, h, |g|)
  {
    PrefixesAgree(c, g, call);
    OnlyCalls(c, g);
    OnlyCalls(c, g + [call]);
    hide TripsAt, ProbesAt, SucceedsAt;
  }

  lemma ProbedNow(c: Config, g: seq<Call>, call: Call, trip: nat)
    ensures var h := g + [call];
            UndecidedSince(c, h, trip, |g|) <==> UnprobedSince(c, g, trip) && ProbesAt(c, h, |g|)
  {
    PrefixesAgree(c, g, call);
    OnlyCalls(c, g);
    OnlyCalls(c, g + [call]);
    hide TripsAt, ProbesAt, SucceedsAt;
  }

  lemma UndecidedWithin(c: Config, h: seq<Call>, trip: nat, probe: nat)
    requires UndecidedSince(c, h, trip, probe)
    ensures probe < |h|
  {
  }

  lemma UndecidedStep(c: Config, g: seq<Call>, call: Call)
    ensures var h := g + [call];
            ProbedUndecided(c, h) <==>
            (TrippedUnprobed(c, g) && ProbesAt(c, h, |g|))
            || (ProbedUndecided(c, g) && !SucceedsAt(h, |g|) && !TripsAt(c, h, |g|))
  {
    hide UndecidedSince, UnprobedSince, TripsAt, ProbesAt, SucceedsAt;
    var h, n := g + [call], |g|;
    if ProbedUndecided(c, h) {
      var i: nat, j: nat :| UndecidedSince(c, h, i, j);
      UndecidedWithin(c, h, i, j);
      if j < n {
        StillUndecided(c, g, call, i, j);
      } else {
        ProbedNow(c, g, call, i);
      }
    }
    if TrippedUnprobed(c, g) && ProbesAt(c, h, n) {
      var i: nat :| UnprobedSince(c, g, i);
      ProbedNow(c, g, call, i);
    }
    if ProbedUndecided(c, g) && !SucceedsAt(h, n) && !TripsAt(c, h, n) {
      var i: nat, j: nat :| UndecidedSince(c, g, i, j);
      UndecidedWithin(c, g, i, j);
      StillUndecided(c, g, call, i, j);
    }
  }

  /** What each phase means, for every history: the characterisation of the breaker. */
  lemma {:induction false} PhaseIsHistory(c: Config, h: seq<Call>)
    ensures Replay(c, h).phase == Open <==> TrippedUnprobed(c, h)
    ensures Replay(c, h).phase == HalfOpen <==> ProbedUndecided(c, h)
  {
    if h != [] {
      var g, call := h[..|h| - 1], h[|h| - 1];
      assert h == g + [call];
      assert h[..|g| + 1] == h && h[..|g|] == g;
      PhaseIsHistory(c, g);
      CountersAreHistory(c, g);
      CountersAreHistory(c, h);
      TrippedStep(c, g, call);
      UndecidedStep(c, g, call);
    }
  }

  /** The gate, for every history and instant: a call is rejected iff some run of at least
      `threshold` failures tripped the breaker, no later check came more than `timeout` after the
      failure before it, and `now` is still within `timeout` of the last failure. */
  lemma {:induction false} RejectionExactly(c: Config, h: seq<Call>, now: int)
    ensures Rejects(c, Replay(c, h), now)
            <==> TrippedUnprobed(c, h) && now - LastFailure(h) <= c.timeout
  {
    PhaseIsHistory(c, h);
    CountersAreHistory(c, h);
  }

  ghost predicate Monotone(h: seq<Call>) {
    forall i, j :: 0 <= i < j < |h| ==> h[i].now <= h[j].now
  }

  /** While the last `threshold` results are all failures, the clock alone decides, whatever checks
      were made in between. */
  lemma {:induction false} FailureRunRejectsUntilTimeout(c: Config, h: seq<Call>, now: int)
    requires Monotone(h + [Check(now)])
    requires 1 <= c.threshold <= TrailingFailures(h)
    ensures Rejects(c, Replay(c, h), now) <==> now - LastFailure(h) <= c.timeout
  {
    var g, call := h[..|h| - 1], h[|h| - 1];
    CountersAreHistory(c, g);
    CountersAreHistory(c, h);
    if call.Check? {
      assert Monotone(g + [Check(call.now)]) by {
        forall i, j | 0 <= i < j < |h| ensures h[i].now <= h[j].now {
          assert (h + [Check(now)])[i] == h[i] && (h + [Check(now)])[j] == h[j];
        }
        assert h == g + [Check(call.now)];
      }
      assert (h + [Check(now)])[|h| - 1] == call && (h + [Check(now)])[|h|] == Check(now);
      FailureRunRejectsUntilTimeout(c, g, call.now);
      assert Replay(c, g).phase != Closed by { NotClosedInFailureRun(c, g); }
    }
  }

  lemma {:induction false} NotClosedInFailureRun(c: Config, h: seq<Call>)
    requires 1 <= c.threshold <= TrailingFailures(h)
    ensures Replay(c, h).phase != Closed
  {
    CountersAreHistory(c, h[..|h| - 1]);
    if h[|h| - 1].Check? {
      NotClosedInFailureRun(c, h[..|h| - 1]);
    }
  }

  /** A closed breaker has seen fewer than `threshold` consecutive failures. */
  lemma {:induction false} ClosedMeansBelowThreshold(c: Config, h: seq<Call>)
    requires Replay(c, h).phase == Closed
    ensures TrailingFailures(h) == 0 || TrailingFailures(h) < c.threshold
  {
    CountersAreHistory(c, h);
    if h != [] {
      CountersAreHistory(c, h[..|h| - 1]);
      if Replay(c, h[..|h| - 1]).phase == Closed {
        ClosedMeansBelowThreshold(c, h[..|h| - 1]);
      }
    }
  }

  /** The breaker leaves `Closed` only on a failure, and only on exactly the threshold-th one in a
      row; it comes back to `Closed` only on a success recorded in `HalfOpen`. */
  lemma {:induction false} ClosedBoundary(c: Config, h: seq<Call>, call: Call)
    ensures Replay(c, h).phase == Closed && Replay(c, h + [call]).phase != Closed
            ==> call.Record? && !call.success && Replay(c, h + [call]).phase == Open
                && TrailingFailures(h + [call]) == Max(1, c.threshold)
    ensures Replay(c, h).phase != Closed && Replay(c, h + [call]).phase == Closed
            ==> Replay(c, h).phase == HalfOpen && call.Record? && call.success
  {
    assert (h + [call])[..|h|] == h;
    CountersAreHistory(c, h);
    CountersAreHistory(c, h + [call]);
    if Replay(c, h).phase == Closed {
      ClosedMeansBelowThreshold(c, h);
    }
  }

  /** A failed trial call re-opens the circuit iff the failure run it extends reaches the threshold:
      a success that arrived while the circuit was open has already reset that run. */
  lemma {:induction false} FailedTrialReopens(c: Config, h: seq<Call>, now: int)
    requires Replay(c, h).phase == HalfOpen
    ensures Replay(c, h + [Record(false, now)]).phase == Open <==> TrailingFailures(h) + 1 >= c.threshold
    ensures Replay(c, h + [Record(false, now)]).phase == Open
            || Replay(c, h + [Record(false, now)]).phase == HalfOpen
  {
    assert (h + [Record(false, now)])[..|h|] == h;
    CountersAreHistory(c, h);
  }

  /** A late success received while the circuit is open leaves a later failed trial in half-open. */
  lemma FailedTrialMayNotReopen()
    ensures var c := Config(2, 10);
            var h := [Record(false, 1), Record(false, 2), Record(true, 3), Check(13)];
            Replay(c, h).phase == HalfOpen && Replay(c, h + [Record(false, 14)]).phase == HalfOpen
  {
    var c := Config(2, 10);
    var h := [Record(false, 1), Record(false, 2), Record(true, 3), Check(13)];
    assert h[..3][..2] == [Record(false, 1), Record(false, 2)];
    assert [Record(false, 1), Record(false, 2)][..1] == [Record(false, 1)];
    assert Replay(c, [Record(false, 1)]) == Breaker(1, 1, Closed);
    assert Replay(c, h[..3][..2]) == Breaker(2, 2, Open);
    assert Replay(c, h[..3]) == Breaker(0, 2, Open);
    assert Replay(c, h) == Breaker(0, 2, HalfOpen);
    assert (h + [Record(false, 14)])[..4] == h;
  }

  // ---- All services together ----

  datatype ServiceCall = ServiceCall(service: string, call: Call)

  function BreakerOf(breakers: map<string, Breaker>, service: string): Breaker {
    if service in breakers then breakers[service] else FRESH
  }

  function StepAll(c: Config, breakers: map<string, Breaker>, e: ServiceCall): map<string, Breaker> {
    breakers[e.service := Step(c, BreakerOf(breakers, e.service), e.call)]
  }

  function RunAll(c: Config, es: seq<ServiceCall>): map<string, Breaker> {
    if es == [] then map[] else StepAll(c, RunAll(c, es[..|es| - 1]), es[|es| - 1])
  }

  lemma RunAllSnoc(c: Config, es: seq<ServiceCall>, e: ServiceCall)
    ensures RunAll(c, es + [e]) == StepAll(c, RunAll(c, es), e)
  {
    assert (es + [e])[..|es|] == es;
  }

  function CallsOf(es: seq<ServiceCall>, service: string): seq<Call> {
    if es == [] then []
    else
      CallsOf(es[..|es| - 1], service) + if es[|es| - 1].service == service then [es[|es| - 1].call] else []
  }

  /** Isolation: in every interleaving of all services' calls, each service's breaker is what its own
      calls alone would have made it. */
  lemma {:induction false} ServicesAreIsolated(c: Config, es: seq<ServiceCall>, service: string)
    ensures BreakerOf(RunAll(c, es), service) == Replay(c, CallsOf(es, service))
  {
    if es != [] {
      ServicesAreIsolated(c, es[..|es| - 1], service);
      var mine := CallsOf(es[..|es| - 1], service);
      if es[|es| - 1].service == service {
        assert (mine + [es[|es| - 1].call])[..|mine|] == mine;
      } else {
        assert mine + [] == mine;
      }
    }
  }
}
