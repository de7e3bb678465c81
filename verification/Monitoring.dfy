/** The alerting service and the health monitor as objects. Alert records are shared: the active map, the
    bounded history and earlier callers all see the same record when it is resolved. */
module Monitoring {
  import opened Sequences
  import opened Alerts
  import HealthChecks

  class AlertRecord {
    const alert: Alert
    const firedAt: int
    var resolvedAt: Option<int>
    var active: bool

    constructor (alert: Alert, firedAt: int)
      ensures this.alert == alert && this.firedAt == firedAt && resolvedAt == None && active
    {
      this.alert, this.firedAt, resolvedAt, active := alert, firedAt, None, true;
    }

    function Value(): Record
      reads this
    {
      Record(alert, firedAt, resolvedAt, active)
    }
  }

  class AlertingService {
    const cooldownMs: int
    var cooldowns: map<Slot, int>
    var history: seq<AlertRecord>
    var active: map<Slot, AlertRecord>

    /** Every record ever created, and every operation ever performed. */
    ghost var fired: seq<AlertRecord>
    ghost var repr: set<AlertRecord>
    ghost var ops: seq<Op>

    /** The records created are distinct objects with these values. */
    ghost predicate Holds(records: seq<Record>)
      reads this`fired, this`repr, repr
    {
      && (forall i :: 0 <= i < |fired| ==> fired[i] in repr)
      && Distinct(fired)
      && |fired| == |records| && (forall i :: 0 <= i < |fired| ==> fired[i].Value() == records[i])
    }

    /** The active map points at these records. */
    ghost predicate Points(indices: map<Slot, nat>)
      reads this`active, this`fired
    {
      && active.Keys == indices.Keys
      && (forall k :: k in active ==> indices[k] < |fired| && active[k] == fired[indices[k]])
    }

    /** The object's fields and records hold exactly the abstract state `s`. */
    ghost predicate Represents(s: State)
      reads this`cooldowns, this`history, this`active, this`fired, this`repr, repr
    {
      history == LastFirings(fired) && cooldowns == s.cooldowns && Holds(s.fired) && Points(s.active)
    }

    ghost predicate Valid()
      reads this, repr
    {
      Represents(Run(cooldownMs, ops))
    }

    /** The active map has the active slots of all that was ever asked of the service. */
    lemma ActiveIs()
      requires Valid()
      ensures active.Keys == Run(cooldownMs, ops).active.Keys
    {
    }

    constructor (cooldownMs: int)
      ensures Valid()
      ensures fired == [] && ops == [] && this.cooldownMs == cooldownMs
    {
      this.cooldownMs, cooldowns, history, active := cooldownMs, map[], [], map[];
      fired, repr, ops := [], {}, [];
      new;
      hide Run, LastFirings;
      NothingAsked(this.cooldownMs);
      assert Represents(INITIAL);
    }

    /** Appends, and drops the oldest record beyond the limit. */
    method Push(record: AlertRecord)
      requires history == LastFirings(fired)
      modifies this`history, this`fired, this`repr
      ensures fired == old(fired) + [record] && history == LastFirings(fired) && repr == old(repr) + {record}
    {
      history := history + [record];
      if |history| > MAX_HISTORY {
        history := history[1..];
      }
      fired, repr := fired + [record], repr + {record};
    }

    method FireFrom(ghost s: State, alert: Alert, now: int)
      requires Represents(s)
      modifies this`cooldowns, this`active, this`history, this`fired, this`repr
      ensures Represents(Step(cooldownMs, s, Op.Fire(alert, now)))
      ensures old(fired) <= fired && fresh(repr - old(repr))
    {
      FireIs(cooldownMs, s, alert, now);
      hide LastFirings, Run, Step;
      var key := Slot(alert.service, alert.severity);
      if key in cooldowns && now - cooldowns[key] < cooldownMs {
        return;
      }
      cooldowns := cooldowns[key := now];
      Register(s.fired, s.active, key, alert, now);
    }

    /** A new record, held by the history and by its slot. */
    method Register(ghost records: seq<Record>, ghost indices: map<Slot, nat>, key: Slot, alert: Alert, now: int)
      requires Holds(records) && Points(indices) && history == LastFirings(fired)
      modifies this`active, this`history, this`fired, this`repr
      ensures Holds(records + [Record(alert, now, None, true)]) && Points(indices[key := |records|])
      ensures history == LastFirings(fired)
      ensures old(fired) <= fired && fresh(repr - old(repr))
    {
      hide LastFirings;
      var record := new AlertRecord(alert, now);
      active := active[key := record];
      Push(record);
    }

    /** A suppressed firing changes nothing; any other creates one record, which its slot then points at. */
    method Fire(alert: Alert, now: int)
      requires Valid()
      modifies this
      ensures Valid() && ops == old(ops) + [Op.Fire(alert, now)]
      ensures old(fired) <= fired && fresh(repr - old(repr))
    {
      hide Run, Represents;
      RunSnoc(cooldownMs, ops, Op.Fire(alert, now));
      FireFrom(Run(cooldownMs, ops), alert, now);
      ops := ops + [Op.Fire(alert, now)];
    }

    method ResolveFrom(ghost s: State, service: string, severity: Severity, now: int)
      requires Represents(s)
      modifies this`cooldowns, this`active, repr
      ensures Represents(Step(cooldownMs, s, Op.Resolve(service, severity, now)))
    {
      ResolveIs(cooldownMs, s, service, severity, now);
      hide Step, LastFirings, Run;
      var key := Slot(service, severity);
      if key !in active {
        return;
      }
      Deregister(s.fired, s.active, key, now);
      cooldowns := cooldowns - {key};
    }

    /** The slot's record is resolved and the slot forgotten. */
    method Deregister(ghost records: seq<Record>, ghost indices: map<Slot, nat>, key: Slot, now: int)
      requires Holds(records) && Points(indices) && key in active
      modifies this`active, repr
      ensures indices[key] < |records| && Points(indices - {key})
      ensures Holds(records[indices[key] := records[indices[key]].(resolvedAt := Some(now), active := false)])
    {
      var record := active[key];
      record.active := false;
      record.resolvedAt := Some(now);
      active := active - {key};
    }

    /** Clears the slot's record, wherever else that record is held. */
    method Resolve(service: string, severity: Severity, now: int)
      requires Valid()
      modifies this, repr
      ensures Valid() && ops == old(ops) + [Op.Resolve(service, severity, now)]
      ensures fired == old(fired) && history == old(history) && repr == old(repr)
    {
      hide Run, Represents;
      RunSnoc(cooldownMs, ops, Op.Resolve(service, severity, now));
      ResolveFrom(Run(cooldownMs, ops), service, severity, now);
      ops := ops + [Op.Resolve(service, severity, now)];
    }

    method ResetCooldowns(now: int)
      requires Valid()
      modifies this`cooldowns, this`ops
      ensures Valid() && ops == old(ops) + [Op.ResetCooldowns(now)]
    {
      hide Run;
      RunSnoc(cooldownMs, ops, Op.ResetCooldowns(now));
      ops := ops + [Op.ResetCooldowns(now)];
      cooldowns := map[];
    }

    /** The filtered history is the filtered tail of all firings, with the flags as they are now. */
    method GetHistory(severity: Option<Severity>, service: Option<string>, activeOnly: bool) returns (r: seq<Record>)
      requires Valid()
      ensures var all := Run(cooldownMs, ops).fired;
              var shown := if |all| <= 500 then all else all[|all| - 500..];
              && r == Filter(shown, Matches(severity, service, activeOnly))
              && forall x :: x in r
                             <==> && x in shown && (severity.None? || x.alert.severity == severity.value)
                                  && (service in {None, Some("")} || x.alert.service == service.value)
                                  && (x.active || !activeOnly)
    {
      MatchesAre(LastFirings(Run(cooldownMs, ops).fired), severity, service, activeOnly);
      LastAre(Run(cooldownMs, ops).fired);
      hide *;
      r := [];
      ghost var all := LastFirings(Run(cooldownMs, ops).fired);
      HistoryIs();
      assert all[..0] == [];
      NothingMatches(severity, service, activeOnly);
      for i := 0 to |history|
        invariant r == Filter(all[..i], Matches(severity, service, activeOnly))
      {
        var record := history[i].Value();
        assert all[..i + 1] == all[..i] + [all[i]];
        FilterSnoc(all[..i], all[i], Matches(severity, service, activeOnly));
        if Matches(severity, service, activeOnly)(record) {
          r := r + [record];
        }
      }
      assert all[..|all|] == all;
    }

    /** The history, as values. */
    lemma HistoryIs()
      requires Valid()
      ensures var all := LastFirings(Run(cooldownMs, ops).fired);
              |all| == |history| && forall i :: 0 <= i < |all| ==> history[i].Value() == all[i]
    {
      hide Run;
    }
  }

  lemma NothingAsked(cooldownMs: int)
    ensures Run(cooldownMs, []) == INITIAL
    ensures LastFirings<AlertRecord>([]) == []
  {
  }

  lemma LastAre<T>(fired: seq<T>)
    ensures LastFirings(fired) == if |fired| <= 500 then fired else fired[|fired| - 500..]
  {
  }

  lemma MatchesAre(shown: seq<Record>, severity: Option<Severity>, service: Option<string>, activeOnly: bool)
    ensures forall x :: x in Filter(shown, Matches(severity, service, activeOnly))
                        <==> && x in shown && (severity.None? || x.alert.severity == severity.value)
                             && (service in {None, Some("")} || x.alert.service == service.value)
                             && (x.active || !activeOnly)
  {
    FilterMembers(shown, Matches(severity, service, activeOnly));
    hide Filter;
  }

  lemma NothingMatches(severity: Option<Severity>, service: Option<string>, activeOnly: bool)
    ensures Filter([], Matches(severity, service, activeOnly)) == []
  {
  }

  function Matches(severity: Option<Severity>, service: Option<string>, activeOnly: bool): Record -> bool {
    (r: Record) =>
      (severity.Some? ==> r.alert.severity == severity.value)
      && (service.Some? && service.value != "" ==> r.alert.service == service.value)
      && (activeOnly ==> r.active)
  }

  class HealthMonitor {
    const alerting: AlertingService
    var failureCounts: map<string, nat>
    ghost var events: seq<HealthChecks.Event>

    /** The failure counts, and all that the alerting service was ever asked. */
    ghost function Seen(): HealthChecks.Monitor
      reads this`failureCounts, alerting`ops
    {
      HealthChecks.Monitor(failureCounts, alerting.ops)
    }

    /** The failure counts are those of the checks made; the alerting service is shared, and anyone may have
        used it. */
    ghost predicate Valid()
      reads this, alerting, alerting.repr
    {
      alerting.Valid() && HealthChecks.CountsTrailingDowns(failureCounts, HealthChecks.ProbesOf(events))
    }

    constructor (alerting: AlertingService)
      requires alerting.Valid()
      ensures Valid() && this.alerting == alerting && events == []
    {
      this.alerting, failureCounts, events := alerting, map[], [];
    }

    /** One dependency's result: its failure count and its alerts. */
    method Observe(p: HealthChecks.Probe)
      requires alerting.Valid()
      modifies this`failureCounts, alerting, alerting.repr
      ensures alerting.Valid()
      ensures Seen() == HealthChecks.Observe(old(Seen()), p)
      ensures fresh(alerting.repr - old(alerting.repr))
    {
      hide AlertingService.Valid, AlertingService.Represents, Run, HealthChecks.SlowThreshold;
      var prev := if p.name in failureCounts then failureCounts[p.name] else 0;
      var failures := if !p.up then prev + 1 else 0;
      failureCounts := failureCounts[p.name := failures];
      if !p.up {
        alerting.Fire(Alert(Critical, p.name, Message.Down(p.name, failures)), p.at);
      } else {
        alerting.Resolve(p.name, Critical, p.at);
        var threshold := HealthChecks.SlowThreshold(p.name);
        if p.responseTime.Some? && p.responseTime.value > threshold {
          alerting.Fire(Alert(Warning, p.name, Slow(p.name, p.responseTime.value, threshold)), p.at);
          assert alerting.ops == old(alerting.ops) + HealthChecks.AlertsFor(p, failures);
        } else {
          assert alerting.ops == old(alerting.ops) + HealthChecks.AlertsFor(p, failures);
        }
      }
    }

    method ObserveEach(probes: seq<HealthChecks.Probe>)
      requires alerting.Valid()
      modifies this`failureCounts, alerting, alerting.repr
      ensures alerting.Valid()
      ensures Seen() == HealthChecks.ObserveAll(old(Seen()), probes)
      ensures fresh(alerting.repr - old(alerting.repr))
    {
      ghost var start := Seen();
      hide *;
      HealthChecks.ObserveTakeNone(start, probes);
      ghost var records := alerting.repr;
      for n := 0 to |probes|
        invariant alerting.Valid()
        invariant Seen() == HealthChecks.ObserveAll(start, probes[..n])
        invariant forall r :: r in alerting.repr ==> r in records || fresh(r)
      {
        HealthChecks.ObserveTake(start, probes, n);
        Observe(probes[n]);
      }
      HealthChecks.ObserveTakeAll(start, probes);
    }

    /** One poll: afterwards each checked dependency has an active critical alert iff it is down, and
        its failure count is its trailing run of failed checks. */
    method RunChecks(probes: seq<HealthChecks.Probe>)
      requires Valid() && HealthChecks.DistinctNames(probes)
      modifies this, alerting, alerting.repr
      ensures Valid() && events == old(events) + [HealthChecks.Poll(probes)]
      ensures forall i :: 0 <= i < |probes| ==> (Slot(probes[i].name, Critical) in alerting.active <==> !probes[i].up)
      ensures HealthChecks.CountsTrailingDowns(failureCounts, HealthChecks.ProbesOf(events))
      ensures fresh(alerting.repr - old(alerting.repr))
    {
      hide *;
      ghost var start := Seen();
      CountsBefore();
      ObserveEach(probes);
      events := events + [HealthChecks.Poll(probes)];
      CountsAfter(start, probes);
      forall i | 0 <= i < |probes| ensures Slot(probes[i].name, Critical) in alerting.active <==> !probes[i].up {
        CriticalIs(start, probes, i);
      }
    }

    lemma CountsBefore()
      requires Valid()
      ensures alerting.Valid() && HealthChecks.CountsTrailingDowns(Seen().failureCounts, HealthChecks.ProbesOf(events))
    {
    }

    lemma CountsAfter(start: HealthChecks.Monitor, probes: seq<HealthChecks.Probe>)
      requires alerting.Valid() && Seen() == HealthChecks.ObserveAll(start, probes)
      requires events != [] && events[|events| - 1] == HealthChecks.Poll(probes)
      requires HealthChecks.CountsTrailingDowns(start.failureCounts, HealthChecks.ProbesOf(events[..|events| - 1]))
      ensures Valid() && HealthChecks.CountsTrailingDowns(failureCounts, HealthChecks.ProbesOf(events))
    {
      hide HealthChecks.CountsTrailingDowns, HealthChecks.ProbesOf, HealthChecks.ObserveAll, AlertingService.Valid;
      HealthChecks.PollCounts(start, events[..|events| - 1], probes);
      assert events[..|events| - 1] + [HealthChecks.Poll(probes)] == events;
    }

    lemma CriticalIs(start: HealthChecks.Monitor, probes: seq<HealthChecks.Probe>, i: nat)
      requires alerting.Valid() && Seen() == HealthChecks.ObserveAll(start, probes)
      requires HealthChecks.DistinctNames(probes) && i < |probes|
      ensures Slot(probes[i].name, Critical) in alerting.active <==> !probes[i].up
    {
      hide HealthChecks.ObserveAll, HealthChecks.DistinctNames, AlertingService.Valid;
      HealthChecks.CriticalIffDown(alerting.cooldownMs, start, probes, i);
      alerting.ActiveIs();
    }
  }
}
