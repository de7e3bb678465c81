/** Attack detection per client address: a fixed counting window, a block once the window holds more
    than `threshold` requests, and a periodic sweep that forgets old entries. */
module DdosProtection {
  import opened Requests
  import opened Sequences

  datatype Config = Config(blockDuration: int, threshold: int, window: int)

  datatype Pattern = Pattern(count: int, firstSeen: int, lastSeen: int, blocked: bool, blockedAt: Option<int>)

  /** `Next` passes the request on; `Blocked` answers 429 with a Retry-After in seconds. */
  datatype Verdict = Next | Blocked(retryAfter: int)

  datatype Answer = Answer(ip: string, now: int, verdict: Verdict)

  /** The entry a first request creates. */
  function Opening(now: int): Pattern {
    Pattern(1, now, now, false, None)
  }

  /** An absent block time counts as 0. */
  function BlockTime(p: Pattern): int {
    if p.blockedAt.Some? then p.blockedAt.value else 0
  }

  /** Milliseconds to whole seconds, rounded up. */
  function CeilSeconds(ms: int): (s: int)
    ensures 1000 * (s - 1) < ms <= 1000 * s
  {
    -((-ms) / 1000)
  }

  /** What one request does to its address's entry. */
  function Handle(c: Config, entry: Option<Pattern>, now: int): (Pattern, Verdict) {
    if entry.None? then (Opening(now), Next)
    else
      var p := entry.value;
      if p.blocked then
        var elapsed := now - BlockTime(p);
        if elapsed < c.blockDuration then (p, Blocked(CeilSeconds(c.blockDuration - elapsed)))
        else (Opening(now).(blockedAt := p.blockedAt), Next)
      else if now - p.firstSeen > c.window then (Opening(now).(blockedAt := p.blockedAt), Next)
      else
        var counted := p.(count := p.count + 1, lastSeen := now);
        if counted.count > c.threshold then
          (counted.(blocked := true, blockedAt := Some(now)), Blocked(CeilSeconds(c.blockDuration)))
        else (counted, Next)
  }

  /** Whether the sweep at `now` deletes this entry; a block time of 0 is falsy and never expires. */
  predicate Swept(c: Config, p: Pattern, now: int) {
    if p.blocked then
      p.blockedAt.Some? && p.blockedAt.value != 0 && now - p.blockedAt.value > c.blockDuration
    else now - p.lastSeen > c.window * 2
  }

  type Table = map<string, Pattern>

  function Lookup(t: Table, ip: string): Option<Pattern> {
    if ip in t then Some(t[ip]) else None
  }

  function SweepTable(c: Config, t: Table, now: int): Table {
    map ip | ip in t && !Swept(c, t[ip], now) :: t[ip]
  }

  function Step(c: Config, t: Table, e: Event): Table {
    match e
    case Request(ip, now) => t[ip := Handle(c, Lookup(t, ip), now).0]
    case Sweep(now) => SweepTable(c, t, now)
  }

  function Run(c: Config, es: seq<Event>): Table {
    if es == [] then map[] else Step(c, Run(c, es[..|es| - 1]), es[|es| - 1])
  }

  /** The verdicts of a run, one per request, in order. */
  function Answers(c: Config, es: seq<Event>): seq<Answer> {
    if es == [] then []
    else
      var e := es[|es| - 1];
      Answers(c, es[..|es| - 1])
      + if e.Sweep? then []
        else [Answer(e.ip, e.now, Handle(c, Lookup(Run(c, es[..|es| - 1]), e.ip), e.now).1)]
  }

  lemma RunSnoc(c: Config, es: seq<Event>, e: Event)
    ensures Run(c, es + [e]) == Step(c, Run(c, es), e)
    ensures Monotone(es) && (es != [] ==> es[|es| - 1].now <= e.now) ==> Monotone(es + [e])
  {
    assert (es + [e])[..|es|] == es;
  }

  // ---- The sweeper is invisible ----

  /** An entry that behaves like no entry for every request at or after `clock`. */
  predicate Dormant(c: Config, p: Pattern, clock: int) {
    if p.blocked then clock - BlockTime(p) >= c.blockDuration else clock - p.firstSeen > c.window
  }

  /** Same behaviour from `clock` on: equal entries, but for the block time of an entry that is not
      blocked, or a dormant entry against none. */
  predicate Equivalent(c: Config, swept: Option<Pattern>, full: Option<Pattern>, clock: int) {
    if swept.Some? then
      && full.Some?
      && swept.value.(blockedAt := full.value.blockedAt) == full.value
      && (full.value.blocked ==> swept.value == full.value)
    else full.Some? ==> Dormant(c, full.value, clock)
  }

  /** Entries never hold times after the clock, and a window starts no later than its last request. */
  predicate Timely(p: Pattern, clock: int) {
    p.firstSeen <= p.lastSeen <= clock
  }

  lemma {:induction false} EntriesAreTimely(c: Config, es: seq<Event>, ip: string, clock: int)
    requires Monotone(es) && (es != [] ==> es[|es| - 1].now <= clock)
    ensures ip in Run(c, es) ==> Timely(Run(c, es)[ip], clock)
  {
    if es != [] {
      MonotonePrefix(es);
      EntriesAreTimely(c, es[..|es| - 1], ip, es[|es| - 1].now);
    }
  }

  /** One request keeps equivalence and gets the same answer on both sides. */
  lemma RequestSimulates(c: Config, swept: Option<Pattern>, full: Option<Pattern>, now: int, clock: int)
    requires Equivalent(c, swept, full, now)
    ensures Handle(c, swept, now).1 == Handle(c, full, now).1
    ensures Equivalent(c, Some(Handle(c, swept, now).0), Some(Handle(c, full, now).0), clock)
  {
  }

  /** Sweeping one side keeps equivalence, because only dormant entries are deleted. */
  lemma SweepSimulates(c: Config, swept: Option<Pattern>, full: Option<Pattern>, now: int, clock: int)
    requires Equivalent(c, swept, full, now) && now <= clock
    requires swept.Some? ==> Timely(swept.value, now)
    ensures Equivalent(c, if swept.Some? && Swept(c, swept.value, now) then None else swept, full, clock)
  {
  }

  lemma EquivalentLater(c: Config, swept: Option<Pattern>, full: Option<Pattern>, now: int, clock: int)
    requires Equivalent(c, swept, full, now) && now <= clock
    ensures Equivalent(c, swept, full, clock)
  {
  }

  /** The effect of one event on the entry of one address. */
  function EntryStep(c: Config, entry: Option<Pattern>, e: Event, ip: string): Option<Pattern> {
    match e
    case Request(other, now) => if other == ip then Some(Handle(c, entry, now).0) else entry
    case Sweep(now) => if entry.Some? && Swept(c, entry.value, now) then None else entry
  }

  lemma LookupStep(c: Config, t: Table, e: Event, ip: string)
    ensures Lookup(Step(c, t, e), ip) == EntryStep(c, Lookup(t, ip), e, ip)
  {
  }

  lemma SimulatesAtStart(c: Config, ip: string, clock: int)
    ensures Equivalent(c, Lookup(Run(c, []), ip), Lookup(Run(c, Filter([], IsRequest())), ip), clock)
  {
  }

  /** Forward simulation: after any run, each address's entry in the sweeping machine is equivalent to
      its entry in the machine that handled the same requests and never deletes anything. */
  lemma {:induction false} SweepingSimulates(c: Config, es: seq<Event>, ip: string, clock: int)
    requires Monotone(es) && (es != [] ==> es[|es| - 1].now <= clock)
    ensures Equivalent(c, Lookup(Run(c, es), ip), Lookup(Run(c, Filter(es, IsRequest())), ip), clock)
  {
    hide Handle, Swept, Equivalent, Lookup, Step, Run, Filter, Monotone;
    if es == [] {
      SimulatesAtStart(c, ip, clock);
    } else {
      var init, e := es[..|es| - 1], es[|es| - 1];
      MonotonePrefix(es);
      SweepingSimulates(c, init, ip, e.now);
      assert es == init + [e];
      FilterSnoc(init, e, IsRequest());
      RunSnoc(c, init, e);
      var requests := Filter(init, IsRequest());
      var swept, full := Lookup(Run(c, init), ip), Lookup(Run(c, requests), ip);
      LookupStep(c, Run(c, init), e, ip);
      EquivalentLater(c, swept, full, e.now, clock);
      if e.Request? {
        RunSnoc(c, requests, e);
        LookupStep(c, Run(c, requests), e, ip);
        RequestSimulates(c, swept, full, e.now, clock);
      } else {
        assert requests + [] == requests;
        LookupIsTimely(c, init, ip, e.now);
        SweepSimulates(c, swept, full, e.now, clock);
      }
    }
  }

  lemma LookupIsTimely(c: Config, es: seq<Event>, ip: string, clock: int)
    requires Monotone(es) && (es != [] ==> es[|es| - 1].now <= clock)
    ensures Lookup(Run(c, es), ip).Some? ==> Timely(Lookup(Run(c, es), ip).value, clock)
  {
    EntriesAreTimely(c, es, ip, clock);
  }

  lemma AnswersSnoc(c: Config, es: seq<Event>, e: Event)
    ensures Answers(c, es + [e])
            == Answers(c, es)
               + if e.Sweep? then [] else [Answer(e.ip, e.now, Handle(c, Lookup(Run(c, es), e.ip), e.now).1)]
  {
    assert (es + [e])[..|es|] == es;
  }

  /** For every interleaving of sweeps and requests the answers are those of the machine that never
      deletes an entry. */
  lemma {:induction false} SweeperIsInvisible(c: Config, es: seq<Event>)
    requires Monotone(es)
    ensures Answers(c, es) == Answers(c, Filter(es, IsRequest()))
  {
    if es != [] {
      hide Answers, Run, Filter, Handle, Lookup, Equivalent, Monotone;
      var init, e := es[..|es| - 1], es[|es| - 1];
      MonotonePrefix(es);
      SweeperIsInvisible(c, init);
      assert es == init + [e];
      AnswersSnoc(c, init, e);
      FilterSnoc(init, e, IsRequest());
      var requests := Filter(init, IsRequest());
      assert requests + [] == requests && Answers(c, init) + [] == Answers(c, init);
      if e.Request? {
        SweepingSimulates(c, init, e.ip, e.now);
        RequestSimulates(c, Lookup(Run(c, init), e.ip), Lookup(Run(c, requests), e.ip), e.now, e.now);
        AnswersSnoc(c, requests, e);
      }
    }
  }

  // ---- Blocking ----

  /** One address on its own: the entry after requests at `ts`. */
  function EntryAfter(c: Config, ts: seq<int>): Option<Pattern> {
    if ts == [] then None else Some(Handle(c, EntryAfter(c, ts[..|ts| - 1]), ts[|ts| - 1]).0)
  }

  function VerdictAt(c: Config, ts: seq<int>, i: nat): Verdict
    requires i < |ts|
  {
    Handle(c, EntryAfter(c, ts[..i]), ts[i]).1
  }

  /** The request times of one address that were passed on. */
  function Admitted(c: Config, ts: seq<int>): seq<int> {
    if ts == [] then []
    else
      Admitted(c, ts[..|ts| - 1])
      + if VerdictAt(c, ts, |ts| - 1) == Next then [ts[|ts| - 1]] else []
  }

  lemma {:induction false} AddressesAreIsolated(c: Config, es: seq<Event>, ip: string)
    requires forall e :: e in es ==> e.Request?
    ensures Lookup(Run(c, es), ip) == EntryAfter(c, TimesOf(es, ip))
  {
    if es != [] {
      AddressesAreIsolated(c, es[..|es| - 1], ip);
      var ts, e := TimesOf(es[..|es| - 1], ip), es[|es| - 1];
      assert e in es;
      assert ts + [] == ts && (ts + [e.now])[..|ts|] == ts;
    }
  }

  /** The answer to the next request of `ip`, in any run with sweeps, from its own requests alone. */
  lemma AnswerIsIsolated(c: Config, es: seq<Event>, ip: string, now: int)
    requires Monotone(es) && (es != [] ==> es[|es| - 1].now <= now)
    ensures Handle(c, Lookup(Run(c, es), ip), now).1
            == Handle(c, EntryAfter(c, TimesOf(Filter(es, IsRequest()), ip)), now).1
  {
    SweepingSimulates(c, es, ip, now);
    FilterMembers(es, IsRequest());
    AddressesAreIsolated(c, Filter(es, IsRequest()), ip);
    RequestSimulates(c, Lookup(Run(c, es), ip), Lookup(Run(c, Filter(es, IsRequest())), ip), now, now);
  }

  /** A request that trips the threshold at `b` starts a block: while every later request of that
      address comes before `b + blockDuration`, every one of them is rejected. */
  lemma {:induction false} BlockHolds(c: Config, ts: seq<int>, later: seq<int>)
    requires ts != [] && VerdictAt(c, ts, |ts| - 1) != Next
    requires EntryAfter(c, ts[..|ts| - 1]).Some? && !EntryAfter(c, ts[..|ts| - 1]).value.blocked
    requires forall t :: t in later ==> t < ts[|ts| - 1] + c.blockDuration
    ensures EntryAfter(c, ts + later) == EntryAfter(c, ts)
    ensures Admitted(c, ts + later) == Admitted(c, ts)
  {
    if later == [] {
      assert ts + later == ts;
    } else {
      var init, last := later[..|later| - 1], later[|later| - 1];
      forall t | t in init ensures t < ts[|ts| - 1] + c.blockDuration { assert t in later; }
      BlockHolds(c, ts, init);
      assert (ts + later)[..|ts + later| - 1] == ts + init;
      assert last in later;
    }
  }

  /** Retry-After is exact: whatever the address's history, a rejected client that waits the announced
      whole number of seconds is let through, and no smaller number of seconds would do. */
  lemma {:induction false} RetryAfterIsExact(c: Config, ts: seq<int>, wait: nat)
    requires ts != [] && VerdictAt(c, ts, |ts| - 1).Blocked?
    ensures var now := ts[|ts| - 1];
            Handle(c, EntryAfter(c, ts), now + 1000 * wait).1 == Next
            <==> wait >= VerdictAt(c, ts, |ts| - 1).retryAfter
  {
  }

  // ---- What a sweep leaves ----

  /** What the times in an entry are: the last request of an address that is not blocked, and the request that
      blocked one that is. */
  ghost predicate Recalls(p: Pattern, ts: seq<int>) {
    if p.blocked then p.blockedAt == Some(p.lastSeen) && p.lastSeen in ts
    else ts != [] && p.lastSeen == ts[|ts| - 1]
  }

  lemma RequestRecalls(c: Config, entry: Option<Pattern>, ts: seq<int>, now: int)
    requires entry.Some? ==> Recalls(entry.value, ts)
    ensures Recalls(Handle(c, entry, now).0, ts + [now])
  {
    assert now in ts + [now];
  }

  lemma {:induction false} EntriesRecall(c: Config, es: seq<Event>, ip: string)
    requires Lookup(Run(c, es), ip).Some?
    ensures Recalls(Lookup(Run(c, es), ip).value, TimesOf(es, ip))
  {
    var init, e := es[..|es| - 1], es[|es| - 1];
    assert es == init + [e];
    RunSnoc(c, init, e);
    LookupStep(c, Run(c, init), e, ip);
    var entry, ts := Lookup(Run(c, init), ip), TimesOf(init, ip);
    assert ts + [] == ts;
    hide Run, Handle, Recalls, Lookup, Step, Swept;
    if entry.Some? {
      EntriesRecall(c, init, ip);
    }
    if e.Request? && e.ip == ip {
      RequestRecalls(c, entry, ts, e.now);
    }
  }

  /** A sweep keeps an address that is not blocked iff its last request is at most two windows ago, and a blocked
      one iff its block, which some request of it set off, is at most the block duration old or dates from 0. */
  lemma KeptIff(c: Config, es: seq<Event>, ip: string, now: int)
    requires ip in Run(c, es)
    ensures var p, ts := Run(c, es)[ip], TimesOf(es, ip);
            var kept := ip in Run(c, es + [Sweep(now)]);
            if p.blocked then
              && p.blockedAt.Some? && p.blockedAt.value in ts
              && (kept <==> p.blockedAt.value == 0 || now - p.blockedAt.value <= c.blockDuration)
            else ts != [] && (kept <==> now - ts[|ts| - 1] <= 2 * c.window)
  {
    RunSnoc(c, es, Sweep(now));
    EntriesRecall(c, es, ip);
    hide Run, TimesOf, Handle;
    var t := Run(c, es);
    assert Lookup(t, ip) == Some(t[ip]);
    assert ip in SweepTable(c, t, now) <==> !Swept(c, t[ip], now);
  }

  // ---- The table as the middleware updates it ----

  class Detector {
    const c: Config
    var suspiciousIPs: Table
    ghost var events: seq<Event>

    ghost predicate Valid()
      reads this
    {
      suspiciousIPs == Run(c, events) && Monotone(events)
    }

    ghost predicate NotBefore(now: int)
      reads this
    {
      events != [] ==> events[|events| - 1].now <= now
    }

    constructor (c: Config)
      ensures Valid() && events == [] && this.c == c
    {
      this.c, suspiciousIPs, events := c, map[], [];
    }

    /** The answer is that of the machine that never sweeps, on this address's requests alone. */
    method Protect(ip: string, now: int) returns (verdict: Verdict)
      requires Valid() && NotBefore(now)
      modifies this`suspiciousIPs, this`events
      ensures Valid() && events == old(events) + [Request(ip, now)]
      ensures verdict == Handle(c, EntryAfter(c, TimesOf(Filter(old(events), IsRequest()), ip)), now).1
    {
      hide Run, Monotone, Filter, EntryAfter, TimesOf;
      AnswerIsIsolated(c, events, ip, now);
      RunSnoc(c, events, Request(ip, now));
      ghost var expected := Handle(c, Lookup(suspiciousIPs, ip), now);
      events := events + [Request(ip, now)];
      if ip !in suspiciousIPs {
        suspiciousIPs := suspiciousIPs[ip := Opening(now)];
        return Next;
      }
      var pattern := suspiciousIPs[ip];
      if pattern.blocked {
        var elapsed := now - BlockTime(pattern);
        if elapsed < c.blockDuration {
          assert suspiciousIPs == suspiciousIPs[ip := expected.0];
          return Blocked(CeilSeconds(c.blockDuration - elapsed));
        }
        pattern := pattern.(blocked := false, count := 1, firstSeen := now, lastSeen := now);
        verdict := Next;
      } else if now - pattern.firstSeen > c.window {
        pattern := pattern.(count := 1, firstSeen := now, lastSeen := now);
        verdict := Next;
      } else {
        pattern := pattern.(count := pattern.count + 1, lastSeen := now);
        if pattern.count > c.threshold {
          pattern := pattern.(blocked := true, blockedAt := Some(now));
          verdict := Blocked(CeilSeconds(c.blockDuration));
        } else {
          verdict := Next;
        }
      }
      suspiciousIPs := suspiciousIPs[ip := pattern];
      assert (pattern, verdict) == expected;
    }

    /** The periodic clean-up: visits every entry once and deletes the stale ones. */
    method Cleanup(now: int)
      requires Valid() && NotBefore(now)
      modifies this`suspiciousIPs, this`events
      ensures Valid() && events == old(events) + [Sweep(now)]
      ensures forall ip ::
                ip in suspiciousIPs
                <==> && ip in old(suspiciousIPs)
                     && var p := old(suspiciousIPs)[ip];
                        if !p.blocked then now - p.lastSeen <= 2 * c.window
                        else p.blockedAt.None? || p.blockedAt.value == 0 || now - p.blockedAt.value <= c.blockDuration
      ensures forall ip :: ip in suspiciousIPs ==> suspiciousIPs[ip] == old(suspiciousIPs)[ip]
    {
      hide Run, Monotone;
      RunSnoc(c, events, Sweep(now));
      ghost var before := suspiciousIPs;
      var pending := suspiciousIPs.Keys;
      while pending != {}
        invariant pending <= before.Keys
        invariant forall ip :: ip in suspiciousIPs <==> ip in before && (ip in pending || !Swept(c, before[ip], now))
        invariant forall ip :: ip in suspiciousIPs ==> suspiciousIPs[ip] == before[ip]
        invariant events == old(events)
        decreases |pending|
      {
        var ip :| ip in pending;
        var pattern := suspiciousIPs[ip];
        var isExpiredBlock := pattern.blocked && pattern.blockedAt.Some? && pattern.blockedAt.value != 0
                              && now - pattern.blockedAt.value > c.blockDuration;
        var isStaleEntry := !pattern.blocked && now - pattern.lastSeen > c.window * 2;
        if isExpiredBlock || isStaleEntry {
          suspiciousIPs := suspiciousIPs - {ip};
        }
        pending := pending - {ip};
      }
      assert suspiciousIPs == SweepTable(c, before, now);
      assert forall ip :: ip in suspiciousIPs <==> ip in before && !Swept(c, before[ip], now);
      events := events + [Sweep(now)];
    }
  }
}
