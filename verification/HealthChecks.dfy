/** The health monitor on top of the alerts: consecutive failures per dependency, a critical alert while
    a dependency is down, a warning when it answers slowly. */
module HealthChecks {
  import opened Sequences
  import opened Alerts

  /** The result of one dependency's check, with the instant its alerts are handled. */
  datatype Probe = Probe(name: string, up: bool, responseTime: Option<int>, at: int)

  /** A poll runs all checks once; anyone else may also call the alerting service. */
  datatype Event = Poll(probes: seq<Probe>) | External(op: Op)

  /** Failure counts, and every operation sent to the alerting service so far. */
  datatype Monitor = Monitor(failureCounts: map<string, nat>, ops: seq<Op>)

  function SlowThreshold(service: string): int {
    if service == "database" then 500
    else if service == "redis" then 100
    else if service == "stellar" then 2000
    else if service == "email" then 3000
    else 1000
  }

  predicate IsSlow(p: Probe) {
    p.up && p.responseTime.Some? && p.responseTime.value > SlowThreshold(p.name)
  }

  /** Up, but slower than is tolerated of it. */
  predicate TakesTooLong(p: Probe) {
    && p.up && p.responseTime.Some?
    && (p.name == "database" ==> p.responseTime.value > 500)
    && (p.name == "redis" ==> p.responseTime.value > 100)
    && (p.name == "stellar" ==> p.responseTime.value > 2000)
    && (p.name == "email" ==> p.responseTime.value > 3000)
    && (p.name !in {"database", "redis", "stellar", "email"} ==> p.responseTime.value > 1000)
  }

  lemma SlowIffTooLong(p: Probe)
    ensures IsSlow(p) <==> TakesTooLong(p)
  {
  }

  function Failures(counts: map<string, nat>, name: string): nat {
    if name in counts then counts[name] else 0
  }

  function AlertsFor(p: Probe, failures: nat): seq<Op> {
    if !p.up then [Fire(Alert(Critical, p.name, Message.Down(p.name, failures)), p.at)]
    else
      [Resolve(p.name, Critical, p.at)]
      + if IsSlow(p) then
          [Fire(Alert(Warning, p.name, Slow(p.name, p.responseTime.value, SlowThreshold(p.name))), p.at)]
        else []
  }

  function Observe(m: Monitor, p: Probe): Monitor {
    var failures := if p.up then 0 else Failures(m.failureCounts, p.name) + 1;
    Monitor(m.failureCounts[p.name := failures], m.ops + AlertsFor(p, failures))
  }

  function ObserveAll(m: Monitor, ps: seq<Probe>): Monitor {
    if ps == [] then m else Observe(ObserveAll(m, ps[..|ps| - 1]), ps[|ps| - 1])
  }

  lemma ObserveAllSnoc(m: Monitor, ps: seq<Probe>, p: Probe)
    ensures ObserveAll(m, ps + [p]) == Observe(ObserveAll(m, ps), p)
  {
    assert (ps + [p])[..|ps|] == ps;
  }

  lemma ObserveTake(m: Monitor, ps: seq<Probe>, n: nat)
    requires n < |ps|
    ensures ObserveAll(m, ps[..n + 1]) == Observe(ObserveAll(m, ps[..n]), ps[n])
  {
    assert ps[..n + 1] == ps[..n] + [ps[n]];
    ObserveAllSnoc(m, ps[..n], ps[n]);
  }

  lemma ObserveTakeAll(m: Monitor, ps: seq<Probe>)
    ensures ObserveAll(m, ps[..|ps|]) == ObserveAll(m, ps)
  {
    assert ps[..|ps|] == ps;
  }

  lemma ObserveTakeNone(m: Monitor, ps: seq<Probe>)
    ensures ObserveAll(m, ps[..0]) == m
  {
  }

  function Handle(m: Monitor, e: Event): Monitor {
    match e
    case Poll(ps) => ObserveAll(m, ps)
    case External(op) => m.(ops := m.ops + [op])
  }

  function Watch(es: seq<Event>): Monitor {
    if es == [] then Monitor(map[], []) else Handle(Watch(es[..|es| - 1]), es[|es| - 1])
  }

  ghost predicate DistinctNames(ps: seq<Probe>) {
    forall i, j :: 0 <= i < j < |ps| ==> ps[i].name != ps[j].name
  }

  function ActiveSlots(cooldownMs: int, m: Monitor): set<Slot> {
    Run(cooldownMs, m.ops).active.Keys
  }

  /** A firing leaves its slot active, suppressed or not. */
  lemma FireActivates(cooldownMs: int, ops: seq<Op>, alert: Alert, now: int)
    ensures Run(cooldownMs, ops + [Fire(alert, now)]).active.Keys
            == Run(cooldownMs, ops).active.Keys + {Slot(alert.service, alert.severity)}
  {
    RunSnoc(cooldownMs, ops, Fire(alert, now));
    AlwaysConsistent(cooldownMs, ops);
  }

  lemma ResolveDeactivates(cooldownMs: int, ops: seq<Op>, service: string, severity: Severity, now: int)
    ensures Run(cooldownMs, ops + [Resolve(service, severity, now)]).active.Keys
            == Run(cooldownMs, ops).active.Keys - {Slot(service, severity)}
  {
    RunSnoc(cooldownMs, ops, Resolve(service, severity, now));
    AlwaysConsistent(cooldownMs, ops);
  }

  /** What one check does to the set of active alerts. */
  lemma ObserveActivity(cooldownMs: int, m: Monitor, p: Probe)
    ensures ActiveSlots(cooldownMs, Observe(m, p))
            == if !p.up then ActiveSlots(cooldownMs, m) + {Slot(p.name, Critical)}
               else ActiveSlots(cooldownMs, m) - {Slot(p.name, Critical)}
                    + if TakesTooLong(p) then {Slot(p.name, Warning)} else {}
  {
    SlowIffTooLong(p);
    var failures := if p.up then 0 else Failures(m.failureCounts, p.name) + 1;
    if !p.up {
      FireActivates(cooldownMs, m.ops, Alert(Critical, p.name, Message.Down(p.name, failures)), p.at);
    } else {
      var resolve := Resolve(p.name, Critical, p.at);
      ResolveDeactivates(cooldownMs, m.ops, p.name, Critical, p.at);
      if IsSlow(p) {
        var alert := Alert(Warning, p.name, Slow(p.name, p.responseTime.value, SlowThreshold(p.name)));
        FireActivates(cooldownMs, m.ops + [resolve], alert, p.at);
        assert m.ops + AlertsFor(p, failures) == (m.ops + [resolve]) + [Fire(alert, p.at)];
      } else {
        assert m.ops + AlertsFor(p, failures) == m.ops + [resolve];
      }
    }
  }

  /** After every poll, whatever happened before and whoever else used the alerting service, a checked
      dependency has an active critical alert iff this poll found it down. */
  lemma {:induction false} CriticalIffDown(cooldownMs: int, m: Monitor, ps: seq<Probe>, i: nat)
    requires DistinctNames(ps) && i < |ps|
    ensures Slot(ps[i].name, Critical) in ActiveSlots(cooldownMs, ObserveAll(m, ps)) <==> !ps[i].up
  {
    hide ActiveSlots, Observe, ObserveAll, TakesTooLong;
    var init, last := ps[..|ps| - 1], ps[|ps| - 1];
    assert ps == init + [last];
    ObserveAllSnoc(m, init, last);
    ObserveActivity(cooldownMs, ObserveAll(m, init), last);
    if i < |init| {
      CriticalIffDown(cooldownMs, m, init, i);
    }
  }

  /** Every check made so far, in order. */
  function ProbesOf(es: seq<Event>): seq<Probe> {
    if es == [] then []
    else ProbesOf(es[..|es| - 1]) + if es[|es| - 1].Poll? then es[|es| - 1].probes else []
  }

  /** How many of the last checks of `name` found it down, without interruption. */
  function TrailingDowns(ps: seq<Probe>, name: string): nat {
    if ps == [] then 0
    else
      var last := ps[|ps| - 1];
      if last.name != name then TrailingDowns(ps[..|ps| - 1], name)
      else if last.up then 0
      else TrailingDowns(ps[..|ps| - 1], name) + 1
  }

  lemma {:induction false} ObserveCounts(m: Monitor, before: seq<Probe>, ps: seq<Probe>, name: string)
    requires Failures(m.failureCounts, name) == TrailingDowns(before, name)
    ensures Failures(ObserveAll(m, ps).failureCounts, name) == TrailingDowns(before + ps, name)
  {
    if ps == [] {
      assert before + ps == before;
    } else {
      var init, last := ps[..|ps| - 1], ps[|ps| - 1];
      ObserveCounts(m, before, init, name);
      assert (before + ps)[..|before + ps| - 1] == before + init;
    }
  }

  /** The stored failure count is the trailing run of failed checks of that dependency. */
  lemma {:induction false} FailureCountIsTrailingDowns(es: seq<Event>, name: string)
    ensures Failures(Watch(es).failureCounts, name) == TrailingDowns(ProbesOf(es), name)
  {
    if es != [] {
      var init, e := es[..|es| - 1], es[|es| - 1];
      FailureCountIsTrailingDowns(init, name);
      if e.Poll? {
        ObserveCounts(Watch(init), ProbesOf(init), e.probes, name);
      } else {
        assert ProbesOf(init) + [] == ProbesOf(init);
      }
    }
  }

  /** What one more check asks of the alerting service: a dependency found down is reported with its trailing run of
      failed checks, this one included; one found up is cleared, and reported if it took too long. */
  lemma CheckAsks(es: seq<Event>, p: Probe)
    ensures var asked, downs := Watch(es + [Poll([p])]).ops, TrailingDowns(ProbesOf(es), p.name) + 1;
            var before := Watch(es).ops;
            && (!p.up ==> asked == before + [Fire(Alert(Critical, p.name, Message.Down(p.name, downs)), p.at)])
            && (p.up && !TakesTooLong(p) ==> asked == before + [Resolve(p.name, Critical, p.at)])
            && (p.up && TakesTooLong(p) ==>
                  var alert := Alert(Warning, p.name, Slow(p.name, p.responseTime.value, SlowThreshold(p.name)));
                  asked == before + [Resolve(p.name, Critical, p.at), Fire(alert, p.at)])
  {
    FailureCountIsTrailingDowns(es, p.name);
    SlowIffTooLong(p);
    WatchOne(es, p);
    hide Watch, TakesTooLong, IsSlow, SlowThreshold, TrailingDowns, ProbesOf;
  }

  lemma WatchOne(es: seq<Event>, p: Probe)
    ensures Watch(es + [Poll([p])]) == Observe(Watch(es), p)
  {
    hide Observe;
    assert (es + [Poll([p])])[..|es|] == es;
    assert [p][..0] == [];
    assert ObserveAll(Watch(es), []) == Watch(es);
  }

  /** The counts of all dependencies are their trailing runs of failed checks. */
  ghost predicate CountsTrailingDowns(counts: map<string, nat>, ps: seq<Probe>) {
    forall name :: Failures(counts, name) == TrailingDowns(ps, name)
  }

  /** One more poll keeps them so, whatever was asked of the alerting service before. */
  lemma PollCounts(m: Monitor, es: seq<Event>, ps: seq<Probe>)
    requires CountsTrailingDowns(m.failureCounts, ProbesOf(es))
    ensures CountsTrailingDowns(ObserveAll(m, ps).failureCounts, ProbesOf(es + [Poll(ps)]))
  {
    assert (es + [Poll(ps)])[..|es|] == es;
    forall name ensures Failures(ObserveAll(m, ps).failureCounts, name) == TrailingDowns(ProbesOf(es) + ps, name) {
      ObserveCounts(m, ProbesOf(es), ps, name);
    }
  }

  ghost predicate EverSlow(ps: seq<Probe>, name: string) {
    exists i :: 0 <= i < |ps| && ps[i].name == name && TakesTooLong(ps[i])
  }

  lemma EverSlowConcat(a: seq<Probe>, b: seq<Probe>, name: string)
    ensures EverSlow(a + b, name) <==> EverSlow(a, name) || EverSlow(b, name)
  {
    var c := a + b;
    if EverSlow(a, name) {
      var i :| 0 <= i < |a| && a[i].name == name && TakesTooLong(a[i]);
      assert c[i] == a[i];
    }
    if EverSlow(b, name) {
      var i :| 0 <= i < |b| && b[i].name == name && TakesTooLong(b[i]);
      assert c[|a| + i] == b[i];
    }
    if EverSlow(c, name) {
      var i :| 0 <= i < |c| && c[i].name == name && TakesTooLong(c[i]);
      assert i < |a| ==> a[i] == c[i];
      assert i >= |a| ==> b[i - |a|] == c[i];
    }
  }

  lemma EverSlowOne(p: Probe, name: string)
    ensures EverSlow([p], name) <==> p.name == name && TakesTooLong(p)
  {
    assert [p][0] == p;
  }

  lemma ObserveWarning(cooldownMs: int, m: Monitor, p: Probe, name: string)
    ensures Slot(name, Warning) in ActiveSlots(cooldownMs, Observe(m, p))
            <==> Slot(name, Warning) in ActiveSlots(cooldownMs, m) || (p.name == name && TakesTooLong(p))
  {
    ObserveActivity(cooldownMs, m, p);
  }

  lemma {:induction false} ObserveWarnings(cooldownMs: int, m: Monitor, ps: seq<Probe>, name: string)
    ensures Slot(name, Warning) in ActiveSlots(cooldownMs, ObserveAll(m, ps))
            <==> Slot(name, Warning) in ActiveSlots(cooldownMs, m) || EverSlow(ps, name)
  {
    hide ActiveSlots, Observe, EverSlow, TakesTooLong, ObserveAll;
    if ps == [] {
      NothingObserved(m, name);
    } else {
      var init, last := ps[..|ps| - 1], ps[|ps| - 1];
      assert ps == init + [last];
      ObserveWarnings(cooldownMs, m, init, name);
      ObserveAllSnoc(m, init, last);
      ObserveWarning(cooldownMs, ObserveAll(m, init), last, name);
      EverSlowConcat(init, [last], name);
      EverSlowOne(last, name);
    }
  }

  lemma NothingObserved(m: Monitor, name: string)
    ensures ObserveAll(m, []) == m && !EverSlow([], name)
  {
  }

  /** A monitor on its own never clears a slowness warning: it is active iff some check of that
      dependency, ever, was slow. */
  lemma {:induction false} WarningIffEverSlow(cooldownMs: int, es: seq<Event>, name: string)
    requires forall e :: e in es ==> e.Poll?
    ensures Slot(name, Warning) in ActiveSlots(cooldownMs, Watch(es)) <==> EverSlow(ProbesOf(es), name)
  {
    if es != [] {
      var init, e := es[..|es| - 1], es[|es| - 1];
      assert e in es;
      WarningIffEverSlow(cooldownMs, init, name);
      ObserveWarnings(cooldownMs, Watch(init), e.probes, name);
      EverSlowConcat(ProbesOf(init), e.probes, name);
    }
  }
}
