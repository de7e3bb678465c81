/** Progressive throttling per client address: a pruned queue of recent request times, a delay that
    grows with the excess over the allowed rate, and a periodic sweep. */
module RequestThrottle {
  import opened Requests
  import opened Sequences

  datatype Config = Config(window: int, maxRps: int, delay: int)

  datatype Entry = Entry(queue: seq<int>, delayUntil: int)

  /** `Pass` calls the next handler at once; `Delayed` marks the response and calls it `ms` later. */
  datatype Decision = Pass | Delayed(ms: int)

  datatype Answer = Answer(ip: string, now: int, decision: Decision)

  type Store = map<string, Entry>

  function Recent(c: Config, now: int): int -> bool {
    (t: int) => now - t < c.window
  }

  function Decide(c: Config, queued: int, now: int): (int, Decision) {
    var excess := queued - c.maxRps;
    if excess <= 0 then (0, Pass) else (now + excess * c.delay, Delayed(excess * c.delay))
  }

  function Handle(c: Config, entry: Option<Entry>, now: int): (Entry, Decision) {
    if entry.None? then (Entry([now], 0), Pass)
    else
      var queue := Filter(entry.value.queue, Recent(c, now)) + [now];
      var (delayUntil, decision) := Decide(c, |queue|, now);
      (Entry(queue, delayUntil), decision)
  }

  function LastOrZero(queue: seq<int>): int {
    if queue == [] then 0 else queue[|queue| - 1]
  }

  predicate Swept(c: Config, e: Entry, now: int) {
    now - LastOrZero(e.queue) > c.window * 10
  }

  function Lookup(s: Store, ip: string): Option<Entry> {
    if ip in s then Some(s[ip]) else None
  }

  function SweepStore(c: Config, s: Store, now: int): Store {
    map ip | ip in s && !Swept(c, s[ip], now) :: s[ip]
  }

  function Step(c: Config, s: Store, e: Event): Store {
    match e
    case Request(ip, now) => s[ip := Handle(c, Lookup(s, ip), now).0]
    case Sweep(now) => SweepStore(c, s, now)
  }

  function Run(c: Config, es: seq<Event>): Store {
    if es == [] then map[] else Step(c, Run(c, es[..|es| - 1]), es[|es| - 1])
  }

  function Answers(c: Config, es: seq<Event>): seq<Answer> {
    if es == [] then []
    else
      var e := es[|es| - 1];
      Answers(c, es[..|es| - 1])
      + if e.Sweep? then []
        else [Answer(e.ip, e.now, Handle(c, Lookup(Run(c, es[..|es| - 1]), e.ip), e.now).1)]
  }

  lemma RunSnoc(c: Config, es: seq<Event>, e: Event)
    ensures Run(c, es + [e]) == Step(c, Run(c, es), e)
    ensures Monotone(es) && (es != [] ==> es[|es| - 1].now <= e.now) ==> Monotone(es + [e])
  {
    assert (es + [e])[..|es|] == es;
  }

  /** The queue at a request, from the full history `ts` of earlier request times. */
  function QueueSpec(c: Config, ts: seq<int>, now: int): seq<int> {
    Filter(ts, Recent(c, now)) + [now]
  }

  /** Pruning at one time and again later is pruning once at the later time. */
  lemma {:induction false} PruneTwice(c: Config, ts: seq<int>, now: int, later: int)
    requires now <= later
    ensures Filter(Filter(ts, Recent(c, now)), Recent(c, later)) == Filter(ts, Recent(c, later))
  {
    if ts != [] {
      var init, last := ts[..|ts| - 1], ts[|ts| - 1];
      PruneTwice(c, init, now, later);
      FilterSnoc(Filter(init, Recent(c, now)), last, Recent(c, later));
    }
  }

  /** What an entry, or its absence, stands for: pruned at any instant from the clock on it gives the
      recent part of the address's whole history. */
  ghost predicate Represents(c: Config, entry: Option<Entry>, ts: seq<int>, clock: int) {
    if entry.Some? then
      && ts != [] && entry.value.queue != []
      && LastOrZero(entry.value.queue) == LastOrZero(ts)
      && forall now :: clock <= now ==>
           Filter(entry.value.queue, Recent(c, now)) == Filter(ts, Recent(c, now))
    else forall now :: clock <= now ==> Filter(ts, Recent(c, now)) == []
  }

  lemma RequestRepresents(c: Config, entry: Option<Entry>, ts: seq<int>, now: int, clock: int)
    requires Represents(c, entry, ts, now) && now <= clock
    ensures Handle(c, entry, now).0.queue == QueueSpec(c, ts, now)
    ensures Represents(c, Some(Handle(c, entry, now).0), ts + [now], clock)
  {
    var queue := QueueSpec(c, ts, now);
    forall later | clock <= later
      ensures Filter(queue, Recent(c, later)) == Filter(ts + [now], Recent(c, later))
    {
      FilterSnoc(Filter(ts, Recent(c, now)), now, Recent(c, later));
      FilterSnoc(ts, now, Recent(c, later));
      PruneTwice(c, ts, now, later);
    }
  }

  lemma SweepRepresents(c: Config, entry: Entry, ts: seq<int>, now: int, clock: int)
    requires Represents(c, Some(entry), ts, now) && now <= clock && Swept(c, entry, now)
    requires Sorted(ts) && ts[|ts| - 1] <= now
    ensures Represents(c, None, ts, clock)
  {
    forall later | clock <= later ensures Filter(ts, Recent(c, later)) == [] {
      forall t | t in ts ensures !Recent(c, later)(t) {
        assert t <= ts[|ts| - 1];
      }
      NoneCounted(ts, Recent(c, later));
    }
  }

  lemma LookupStep(c: Config, s: Store, e: Event, ip: string)
    ensures Lookup(Step(c, s, e), ip)
            == match e
               case Request(other, now) =>
                 if other == ip then Some(Handle(c, Lookup(s, ip), now).0) else Lookup(s, ip)
               case Sweep(now) =>
                 if ip in s && Swept(c, s[ip], now) then None else Lookup(s, ip)
  {
  }

  lemma {:induction false} StoreRepresentsHistory(c: Config, es: seq<Event>, ip: string, clock: int)
    requires Monotone(es) && (es != [] ==> es[|es| - 1].now <= clock)
    ensures Represents(c, Lookup(Run(c, es), ip), TimesOf(es, ip), clock)
  {
    if es != [] {
      var init, e := es[..|es| - 1], es[|es| - 1];
      StoreRepresentsHistory(c, init, ip, e.now);
      TimesAreSorted(init, ip, e.now);
      LookupStep(c, Run(c, init), e, ip);
      var entry, ts := Lookup(Run(c, init), ip), TimesOf(init, ip);
      assert ts + [] == ts;
      if e.Request? && e.ip == ip {
        RequestRepresents(c, entry, ts, e.now, clock);
      } else if e.Sweep? && entry.Some? && Swept(c, entry.value, e.now) {
        assert ts[|ts| - 1] in ts;
        SweepRepresents(c, entry.value, ts, e.now, clock);
      }
    }
  }

  /** In every run with sweeps, the queue stored by a request is exactly the part of the address's whole
      request history within `window` of now, with the request itself at the end. */
  lemma {:induction false} QueueIsRecentHistory(c: Config, es: seq<Event>, ip: string, now: int)
    requires Monotone(es) && (es != [] ==> es[|es| - 1].now <= now)
    ensures Handle(c, Lookup(Run(c, es), ip), now).0.queue == QueueSpec(c, TimesOf(es, ip), now)
  {
    StoreRepresentsHistory(c, es, ip, now);
    RequestRepresents(c, Lookup(Run(c, es), ip), TimesOf(es, ip), now, now);
  }

  /** That part: with `old` requests at least a window ago, the later ones follow, each less than a window ago. */
  ghost predicate CutsAt(c: Config, ts: seq<int>, now: int, before: nat) {
    && before <= |ts|
    && (forall i :: 0 <= i < before ==> now - ts[i] >= c.window)
    && (forall i :: before <= i < |ts| ==> now - ts[i] < c.window)
  }

  lemma {:induction false} CutOf(c: Config, ts: seq<int>, now: int) returns (k: nat)
    requires Sorted(ts)
    ensures CutsAt(c, ts, now, k)
  {
    k := |ts|;
    while k > 0 && now - ts[k - 1] < c.window
      invariant k <= |ts|
      invariant forall i :: k <= i < |ts| ==> now - ts[i] < c.window
    {
      k := k - 1;
    }
  }

  lemma RecentIsSuffix(c: Config, ts: seq<int>, now: int, k: nat)
    requires CutsAt(c, ts, now, k)
    ensures Filter(ts, Recent(c, now)) == ts[k..]
  {
    assert ts == ts[..k] + ts[k..];
    FilterConcat(ts[..k], ts[k..], Recent(c, now));
    NoneCounted(ts[..k], Recent(c, now));
    AllKept(ts[k..], Recent(c, now));
  }

  /** In every run with sweeps the queue stored by a request is what follows, in the address's whole history, its
      last request of a window or more ago, with the request itself at the end. */
  lemma QueueIsSuffixOfHistory(c: Config, es: seq<Event>, ip: string, now: int) returns (k: nat)
    requires Monotone(es) && (es != [] ==> es[|es| - 1].now <= now)
    ensures CutsAt(c, TimesOf(es, ip), now, k)
    ensures Handle(c, Lookup(Run(c, es), ip), now).0.queue == TimesOf(es, ip)[k..] + [now]
  {
    hide Run, Handle, TimesOf, Monotone, CutsAt, Filter;
    QueueIsRecentHistory(c, es, ip, now);
    TimesAreSorted(es, ip, now);
    k := CutOf(c, TimesOf(es, ip), now);
    RecentIsSuffix(c, TimesOf(es, ip), now, k);
  }

  /** A sweep keeps an address's entry iff its last request is at most ten windows ago. */
  lemma KeptIff(c: Config, es: seq<Event>, ip: string, now: int)
    requires Monotone(es) && (es != [] ==> es[|es| - 1].now <= now)
    ensures var ts := TimesOf(es, ip);
            ip in Run(c, es + [Sweep(now)]) <==> ip in Run(c, es) && ts != [] && now - ts[|ts| - 1] <= 10 * c.window
  {
    RunSnoc(c, es, Sweep(now));
    StoreRepresentsHistory(c, es, ip, now);
    hide Run, TimesOf, Filter, Monotone;
  }

  function DelayOf(d: Decision): int {
    match d case Pass => 0 case Delayed(ms) => ms
  }

  /** `delay` for each recent request beyond `maxRps`, and no delay at all up to there. */
  predicate IsExcess(c: Config, recent: int, d: Decision) {
    DelayOf(d) == Max(0, recent - c.maxRps) * c.delay && (d == Pass <==> recent <= c.maxRps)
  }

  /** The delay in every run with sweeps and for every setting: that of the excess when the address has an
      entry; without one nothing is recent but the request itself, which passes. */
  lemma DelayIsExcess(c: Config, es: seq<Event>, ip: string, now: int)
    requires Monotone(es) && (es != [] ==> es[|es| - 1].now <= now)
    ensures var recent := |QueueSpec(c, TimesOf(es, ip), now)|;
            var d := Handle(c, Lookup(Run(c, es), ip), now).1;
            if ip in Run(c, es) then IsExcess(c, recent, d) else recent == 1 && d == Pass
  {
    hide QueueSpec, TimesOf, Run, Handle, Monotone, IsExcess;
    QueueIsRecentHistory(c, es, ip, now);
    DelayFromEntry(c, Lookup(Run(c, es), ip), now);
  }

  lemma DelayFromEntry(c: Config, entry: Option<Entry>, now: int)
    ensures var (e, d) := Handle(c, entry, now);
            if entry.Some? then IsExcess(c, |e.queue|, d) else |e.queue| == 1 && d == Pass
  {
    hide Filter;
  }

  ghost predicate ExcessInAllRuns(c: Config) {
    forall es: seq<Event>, ip: string, now: int :: Monotone(es) && (es != [] ==> es[|es| - 1].now <= now) ==>
      IsExcess(c, |QueueSpec(c, TimesOf(es, ip), now)|, Handle(c, Lookup(Run(c, es), ip), now).1)
  }

  /** Every decision of every run follows that rule iff at least one request is allowed: otherwise the
      first request of an address exceeds the rate and passes. */
  lemma DelayIsExcessIffOneAllowed(c: Config)
    ensures ExcessInAllRuns(c) <==> c.maxRps >= 1
  {
    hide Filter, IsExcess;
    if c.maxRps >= 1 {
      forall es: seq<Event>, ip: string, now: int | Monotone(es) && (es != [] ==> es[|es| - 1].now <= now)
        ensures IsExcess(c, |QueueSpec(c, TimesOf(es, ip), now)|, Handle(c, Lookup(Run(c, es), ip), now).1)
      {
        ExcessWhenOneAllowed(c, es, ip, now);
      }
    } else {
      FirstRequestPasses(c);
    }
  }

  lemma ExcessWhenOneAllowed(c: Config, es: seq<Event>, ip: string, now: int)
    requires Monotone(es) && (es != [] ==> es[|es| - 1].now <= now) && c.maxRps >= 1
    ensures IsExcess(c, |QueueSpec(c, TimesOf(es, ip), now)|, Handle(c, Lookup(Run(c, es), ip), now).1)
  {
    hide QueueSpec, TimesOf, Run, Handle, Monotone;
    DelayIsExcess(c, es, ip, now);
  }

  lemma FirstRequestPasses(c: Config)
    requires c.maxRps < 1
    ensures Monotone([])
    ensures !IsExcess(c, |QueueSpec(c, TimesOf([], "ip"), 0)|, Handle(c, Lookup(Run(c, []), "ip"), 0).1)
  {
    assert |QueueSpec(c, [], 0)| == 1;
  }

  lemma {:induction false} SameAnswerWithoutSweeps(c: Config, es: seq<Event>, ip: string, now: int)
    requires Monotone(es) && (es != [] ==> es[|es| - 1].now <= now)
    requires c.maxRps >= 1
    ensures Handle(c, Lookup(Run(c, es), ip), now).1
            == Handle(c, Lookup(Run(c, Filter(es, IsRequest())), ip), now).1
  {
    hide Run, Handle, Filter, TimesOf, QueueSpec, Monotone;
    var requests := Filter(es, IsRequest());
    RequestsStayMonotone(es, now);
    assert requests != [] ==> requests[|requests| - 1] in requests;
    RequestsKeepTimes(es, ip);
    ExcessWhenOneAllowed(c, es, ip, now);
    ExcessWhenOneAllowed(c, requests, ip, now);
  }

  lemma {:induction false} SweeperIsInvisible(c: Config, es: seq<Event>)
    requires Monotone(es) && c.maxRps >= 1
    ensures Answers(c, es) == Answers(c, Filter(es, IsRequest()))
  {
    if es != [] {
      var init, e := es[..|es| - 1], es[|es| - 1];
      SweeperIsInvisible(c, init);
      assert es == init + [e];
      var requests := Filter(init, IsRequest());
      if e.Request? {
        SameAnswerWithoutSweeps(c, init, e.ip, e.now);
        assert (requests + [e])[..|requests|] == requests;
      }
    }
  }

  ghost predicate SweeperInvisibleInAllRuns(c: Config) {
    forall es :: Monotone(es) ==> Answers(c, es) == Answers(c, Filter(es, IsRequest()))
  }

  /** Without one allowed request per window a sweep shows: the request after it opens a new entry and
      passes, while the machine that kept the entry delays it. */
  lemma SweepShowsWhenNothingIsAllowed(c: Config, ip: string) returns (es: seq<Event>)
    requires c.maxRps < 1
    ensures Monotone(es)
    ensures Answers(c, es) != Answers(c, Filter(es, IsRequest()))
  {
    hide Run, Answers, Filter;
    var later := Max(0, c.window * 10) + 1;
    var a, b, d := Request(ip, 0), Sweep(later), Request(ip, later);
    es := [a, b, d];
    NoEvents(c);
    assert [] + [a] == [a] && [a] + [b] == [a, b] && [a, b] + [d] == es && [a] + [d] == [a, d];
    RunSnoc(c, [], a);
    RunSnoc(c, [a], b);
    assert Run(c, [a]) == map[ip := Entry([0], 0)];
    assert ip !in Run(c, [a, b]);
    AnswersSnoc(c, [], a);
    AnswersSnoc(c, [a], b);
    AnswersSnoc(c, [a, b], d);
    AnswersSnoc(c, [a], d);
    assert Answers(c, es)[1] == Answer(ip, later, Pass);
    SecondIsDelayed(c, Entry([0], 0), later);
    assert Answers(c, [a, d])[1].decision.Delayed?;
    RequestsOf(a, b, d);
  }

  lemma NoEvents(c: Config)
    ensures Run(c, []) == map[] && Answers(c, []) == []
  {
  }

  lemma AnswersSnoc(c: Config, es: seq<Event>, e: Event)
    ensures Answers(c, es + [e])
            == Answers(c, es)
               + if e.Sweep? then [] else [Answer(e.ip, e.now, Handle(c, Lookup(Run(c, es), e.ip), e.now).1)]
  {
    hide Handle, Run;
    assert (es + [e])[..|es|] == es;
  }

  lemma SecondIsDelayed(c: Config, entry: Entry, now: int)
    requires c.maxRps < 1
    ensures Handle(c, Some(entry), now).1.Delayed?
  {
    hide Filter;
  }

  lemma RequestsOf(a: Event, b: Event, d: Event)
    requires a.Request? && b.Sweep? && d.Request?
    ensures Filter([a, b, d], IsRequest()) == [a, d]
  {
    FilterSnoc([a, b], d, IsRequest());
    FilterSnoc([a], b, IsRequest());
    FilterSnoc([], a, IsRequest());
    assert [a, b] + [d] == [a, b, d] && [a] + [b] == [a, b] && [] + [a] == [a];
  }

  /** The exact condition: sweeps never show in any answer iff at least one request is allowed. */
  lemma SweeperInvisibleIffOneAllowed(c: Config)
    ensures SweeperInvisibleInAllRuns(c) <==> c.maxRps >= 1
  {
    if c.maxRps >= 1 {
      forall es | Monotone(es) ensures Answers(c, es) == Answers(c, Filter(es, IsRequest())) {
        SweeperIsInvisible(c, es);
      }
    } else {
      var es := SweepShowsWhenNothingIsAllowed(c, "ip");
    }
  }

  // ---- The store as the middleware updates it ----

  class Throttle {
    const c: Config
    var throttleStore: Store
    ghost var events: seq<Event>

    ghost predicate Valid()
      reads this
    {
      throttleStore == Run(c, events) && Monotone(events)
    }

    ghost predicate NotBefore(now: int)
      reads this
    {
      events != [] ==> events[|events| - 1].now <= now
    }

    constructor (c: Config)
      ensures Valid() && events == [] && this.c == c
    {
      this.c, throttleStore, events := c, map[], [];
    }

    /** Stores exactly the recent history of this address and delays by its excess. */
    method Limit(ip: string, now: int) returns (decision: Decision)
      requires Valid() && NotBefore(now)
      modifies this`throttleStore, this`events
      ensures Valid() && events == old(events) + [Request(ip, now)]
      ensures ip in throttleStore && throttleStore[ip].queue == QueueSpec(c, TimesOf(old(events), ip), now)
      ensures if ip in old(throttleStore) then IsExcess(c, |throttleStore[ip].queue|, decision)
              else |throttleStore[ip].queue| == 1 && decision == Pass
      ensures throttleStore[ip].delayUntil == if decision == Pass then 0 else now + DelayOf(decision)
    {
      hide Run, Monotone, Filter, QueueSpec, TimesOf;
      QueueIsRecentHistory(c, events, ip, now);
      DelayIsExcess(c, events, ip, now);
      RunSnoc(c, events, Request(ip, now));
      ghost var expected := Handle(c, Lookup(throttleStore, ip), now);
      events := events + [Request(ip, now)];
      if ip !in throttleStore {
        throttleStore := throttleStore[ip := Entry([now], 0)];
        return Pass;
      }
      var entry := throttleStore[ip];
      entry := entry.(queue := Filter(entry.queue, Recent(c, now)));
      entry := entry.(queue := entry.queue + [now]);
      var excess := |entry.queue| - c.maxRps;
      if excess <= 0 {
        entry := entry.(delayUntil := 0);
        decision := Pass;
      } else {
        var delay := excess * c.delay;
        entry := entry.(delayUntil := now + delay);
        decision := Delayed(delay);
      }
      throttleStore := throttleStore[ip := entry];
      assert (entry, decision) == expected;
    }

    /** The clean-up loop visits every entry once and deletes the stale ones. */
    method DeleteStale(now: int)
      modifies this`throttleStore
      ensures throttleStore == SweepStore(c, old(throttleStore), now)
      ensures forall ip ::
                ip in throttleStore
                <==> && ip in old(throttleStore)
                     && var queue := old(throttleStore)[ip].queue;
                        now - (if queue == [] then 0 else queue[|queue| - 1]) <= 10 * c.window
    {
      ghost var before := throttleStore;
      var pending := throttleStore.Keys;
      while pending != {}
        invariant pending <= before.Keys
        invariant forall ip :: ip in throttleStore <==> ip in before && (ip in pending || !Swept(c, before[ip], now))
        invariant forall ip :: ip in throttleStore ==> throttleStore[ip] == before[ip]
        decreases |pending|
      {
        var ip :| ip in pending;
        if now - LastOrZero(throttleStore[ip].queue) > c.window * 10 {
          throttleStore := throttleStore - {ip};
        }
        pending := pending - {ip};
      }
    }

    method Cleanup(now: int)
      requires Valid() && NotBefore(now)
      modifies this`throttleStore, this`events
      ensures Valid() && events == old(events) + [Sweep(now)]
    {
      hide Run, Monotone;
      RunSnoc(c, events, Sweep(now));
      DeleteStale(now);
      events := events + [Sweep(now)];
    }
  }
}
