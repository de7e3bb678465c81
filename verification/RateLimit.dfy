/** The gateway's request limiter: one counter per key, incremented by every admitted request
    and decremented by a timer set `windowMs` later. */
module RateLimit {
  import opened Sequences

  datatype Limits = Limits(windowMs: int, maxRequests: int)

  /** A pending timeout: it may fire for `key` at any instant from `due` on. */
  datatype Timer = Timer(key: string, due: int)

  /** A request passed on to the next handler. */
  datatype Admission = Admission(key: string, at: int)

  /** `Expiry(i, now)` is the event loop running the i-th pending timer; it is a no-op while there
      is no such timer or it is not due. */
  datatype Event = Request(key: string, now: int) | Expiry(timer: nat, now: int)

  datatype State = State(counts: map<string, int>, timers: seq<Timer>, admitted: seq<Admission>)

  const INITIAL := State(map[], [], [])

  function CountOf(counts: map<string, int>, key: string): int {
    if key in counts then counts[key] else 0
  }

  predicate Admits(l: Limits, s: State, key: string) {
    CountOf(s.counts, key) < l.maxRequests
  }

  predicate Fires(s: State, timer: nat, now: int) {
    timer < |s.timers| && s.timers[timer].due <= now
  }

  function Step(l: Limits, s: State, e: Event): State {
    match e
    case Request(key, now) =>
      if Admits(l, s, key) then
        State(s.counts[key := CountOf(s.counts, key) + 1],
              s.timers + [Timer(key, now + l.windowMs)],
              s.admitted + [Admission(key, now)])
      else s
    case Expiry(i, now) =>
      if Fires(s, i, now) then
        var key := s.timers[i].key;
        s.(counts := s.counts[key := Max(0, CountOf(s.counts, key) - 1)],
           timers := RemoveAt(s.timers, i))
      else s
  }

  function Run(l: Limits, es: seq<Event>): State {
    if es == [] then INITIAL else Step(l, Run(l, es[..|es| - 1]), es[|es| - 1])
  }

  ghost predicate Monotone(es: seq<Event>) {
    forall i, j :: 0 <= i < j < |es| ==> es[i].now <= es[j].now
  }

  lemma RunSnoc(l: Limits, es: seq<Event>, e: Event)
    ensures Run(l, es + [e]) == Step(l, Run(l, es), e)
    ensures Monotone(es) && (es != [] ==> es[|es| - 1].now <= e.now) ==> Monotone(es + [e])
  {
    assert (es + [e])[..|es|] == es;
  }

  function PendingFor(key: string): Timer -> bool {
    (t: Timer) => t.key == key
  }

  function DueAfter(key: string, x: int): Timer -> bool {
    (t: Timer) => t.key == key && t.due > x
  }

  /** Admissions for `key` whose window is still running after `x`. */
  function LiveAfter(l: Limits, key: string, x: int): Admission -> bool {
    (a: Admission) => a.key == key && a.at + l.windowMs > x
  }

  /** Admissions for `key` in the half-open interval of length `windowMs` starting at `from`. */
  function InWindow(l: Limits, key: string, from: int): Admission -> bool {
    (a: Admission) => a.key == key && from <= a.at < from + l.windowMs
  }

  /** Every key's counter is the number of its pending timers, in every run whatsoever. */
  lemma {:induction false} CounterIsPendingTimers(l: Limits, es: seq<Event>, key: string)
    ensures CountOf(Run(l, es).counts, key) == Count(Run(l, es).timers, PendingFor(key))
  {
    if es != [] {
      var s, e := Run(l, es[..|es| - 1]), es[|es| - 1];
      CounterIsPendingTimers(l, es[..|es| - 1], key);
      match e
      case Request(k, now) =>
        FilterSnoc(s.timers, Timer(k, now + l.windowMs), PendingFor(key));
      case Expiry(i, now) =>
        if i < |s.timers| {
          CountRemoveAt(s.timers, i, PendingFor(key));
        }
    }
  }

  /** Hence the clamp at zero is never reached: a firing timer always finds its own unit. */
  lemma {:induction false} ClampNeverBites(l: Limits, es: seq<Event>, i: nat)
    requires i < |Run(l, es).timers|
    ensures CountOf(Run(l, es).counts, Run(l, es).timers[i].key) >= 1
  {
    var s := Run(l, es);
    var key := s.timers[i].key;
    CounterIsPendingTimers(l, es, key);
    FilterMembers(s.timers, PendingFor(key));
    assert s.timers[i] in Filter(s.timers, PendingFor(key));
  }

  /** A timer that is not yet due cannot have fired, so for every instant `x` at or after the clock
      the pending timers due after `x` match the admissions still live after `x`. */
  lemma {:induction false} UnexpiredAreLive(l: Limits, es: seq<Event>, key: string, x: int)
    requires Monotone(es)
    requires es != [] ==> es[|es| - 1].now <= x
    ensures Count(Run(l, es).timers, DueAfter(key, x)) == Count(Run(l, es).admitted, LiveAfter(l, key, x))
  {
    if es != [] {
      var s, e := Run(l, es[..|es| - 1]), es[|es| - 1];
      UnexpiredAreLive(l, es[..|es| - 1], key, x);
      match e
      case Request(k, now) =>
        FilterSnoc(s.timers, Timer(k, now + l.windowMs), DueAfter(key, x));
        FilterSnoc(s.admitted, Admission(k, now), LiveAfter(l, key, x));
      case Expiry(i, now) =>
        if i < |s.timers| {
          CountRemoveAt(s.timers, i, DueAfter(key, x));
        }
    }
  }

  lemma {:induction false} InWindowBound(l: Limits, es: seq<Event>, key: string, from: int)
    requires Monotone(es)
    ensures Count(Run(l, es).admitted, InWindow(l, key, from)) <= Max(0, l.maxRequests)
  {
    if es != [] {
      var s, e := Run(l, es[..|es| - 1]), es[|es| - 1];
      InWindowBound(l, es[..|es| - 1], key, from);
      if e.Request? && Admits(l, s, e.key) {
        FilterSnoc(s.admitted, Admission(e.key, e.now), InWindow(l, key, from));
        if e.key == key && from <= e.now < from + l.windowMs {
          CountMonotone(s.admitted, InWindow(l, key, from), LiveAfter(l, key, e.now));
          UnexpiredAreLive(l, es[..|es| - 1], key, e.now);
          CountMonotone(s.timers, DueAfter(key, e.now), PendingFor(key));
          CounterIsPendingTimers(l, es[..|es| - 1], key);
        }
      }
    }
  }

  /** Safety over whole runs: with timers never early, no half-open interval of length `windowMs`
      contains more than `maxRequests` admitted requests of one key. */
  lemma WindowBound(l: Limits, es: seq<Event>, key: string, from: int)
    requires Monotone(es)
    ensures var admitted := Run(l, es).admitted;
            |set i | 0 <= i < |admitted| && admitted[i].key == key && from <= admitted[i].at < from + l.windowMs|
            <= Max(0, l.maxRequests)
  {
    var admitted := Run(l, es).admitted;
    hide Run, Monotone, Count;
    InWindowBound(l, es, key, from);
    CountIsPositions(admitted, InWindow(l, key, from));
    assert Positions(admitted, InWindow(l, key, from))
        == set i | 0 <= i < |admitted| && admitted[i].key == key && from <= admitted[i].at < from + l.windowMs;
  }

  /** A timer that is due runs, and is gone; its key's counter is one lower, and no other counter changes. */
  lemma DueTimerRuns(l: Limits, es: seq<Event>, i: nat, now: int)
    requires Monotone(es) && i < |Run(l, es).timers| && Run(l, es).timers[i].due <= now
    ensures var s, t := Run(l, es), Run(l, es + [Expiry(i, now)]);
            var key := s.timers[i].key;
            && t.timers == RemoveAt(s.timers, i) && t.admitted == s.admitted
            && key in s.counts && t.counts == s.counts[key := s.counts[key] - 1]
  {
    RunSnoc(l, es, Expiry(i, now));
    ClampNeverBites(l, es, i);
    hide Run;
  }

  /** The limiter refines the sliding-window log: once every due timer has fired, a request at `now`
      is admitted exactly when fewer than `maxRequests` were admitted in `(now - windowMs, now]`. */
  lemma {:induction false} PromptTimersMeanSlidingWindow(l: Limits, es: seq<Event>, key: string, now: int)
    requires Monotone(es)
    requires es != [] ==> es[|es| - 1].now <= now
    requires forall t :: t in Run(l, es).timers ==> t.due > now
    ensures Admits(l, Run(l, es), key)
            <==> var admitted := Run(l, es).admitted;
                 |set i | 0 <= i < |admitted| && admitted[i].key == key && admitted[i].at > now - l.windowMs|
                 < l.maxRequests
  {
    CounterIsPendingTimers(l, es, key);
    UnexpiredAreLive(l, es, key, now);
    FilterAgree(Run(l, es).timers, PendingFor(key), DueAfter(key, now));
    var admitted := Run(l, es).admitted;
    hide Run, Monotone, Filter;
    CountIsPositions(admitted, LiveAfter(l, key, now));
    assert Positions(admitted, LiveAfter(l, key, now))
        == set i | 0 <= i < |admitted| && admitted[i].key == key && admitted[i].at > now - l.windowMs;
  }

  /** Late timers only make the limiter stricter than the sliding-window log, never more permissive. */
  lemma {:induction false} LateTimersOnlyRejectMore(l: Limits, es: seq<Event>, key: string, now: int)
    requires Monotone(es)
    requires es != [] ==> es[|es| - 1].now <= now
    requires Admits(l, Run(l, es), key)
    ensures Count(Run(l, es).admitted, LiveAfter(l, key, now)) < l.maxRequests
  {
    CounterIsPendingTimers(l, es, key);
    UnexpiredAreLive(l, es, key, now);
    CountMonotone(Run(l, es).timers, DueAfter(key, now), PendingFor(key));
  }
}
