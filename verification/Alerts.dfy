/** Alerts with cooldowns: what firing, resolving and resetting do, and what holds in every run. */
module Alerts {
  import opened Sequences

  datatype Severity = Info | Warning | Critical

  /** The two messages the health monitor sends, and any other text. */
  datatype Message =
    | Down(dependency: string, failures: nat)
    | Slow(dependency: string, responseTime: int, threshold: int)
    | Other(text: string)

  datatype Alert = Alert(severity: Severity, service: string, message: Message)

  datatype Record = Record(alert: Alert, firedAt: int, resolvedAt: Option<int>, active: bool)

  datatype Op =
    | Fire(alert: Alert, now: int)
    | Resolve(service: string, severity: Severity, now: int)
    | ResetCooldowns(now: int)

  /** `fired` holds every record ever created, oldest first, with its current flags; `active` points
      into it. */
  datatype State = State(cooldowns: map<Slot, int>, fired: seq<Record>, active: map<Slot, nat>)

  const INITIAL := State(map[], [], map[])

  const MAX_HISTORY := 500

  /** What an alert is about: cooldowns and active alerts are kept per slot. */
  datatype Slot = Slot(service: string, severity: Severity)

  function SlotOf(r: Record): Slot {
    Slot(r.alert.service, r.alert.severity)
  }

  function SeverityName(s: Severity): string {
    match s case Info => "info" case Warning => "warning" case Critical => "critical"
  }

  /** The text the maps are keyed by. */
  function Key(slot: Slot): string {
    slot.service + ":" + SeverityName(slot.severity)
  }

  /** Keying by text is keying by slot, even when service names contain colons. */
  lemma KeyIsInjective(a: Slot, b: Slot)
    requires Key(a) == Key(b)
    ensures a == b
  {
    var k := Key(a);
    assert k[|k| - 2] == SeverityName(a.severity)[|SeverityName(a.severity)| - 2];
    assert k[|k| - 2] == SeverityName(b.severity)[|SeverityName(b.severity)| - 2];
    assert a.service == k[..|k| - |SeverityName(a.severity)| - 1];
    assert b.service == k[..|k| - |SeverityName(a.severity)| - 1];
  }

  predicate Suppressed(cooldownMs: int, s: State, key: Slot, now: int) {
    key in s.cooldowns && now - s.cooldowns[key] < cooldownMs
  }

  function Step(cooldownMs: int, s: State, op: Op): State {
    match op
    case Fire(alert, now) =>
      var key := Slot(alert.service, alert.severity);
      if Suppressed(cooldownMs, s, key, now) then s
      else
                 State(s.cooldowns[key := now], s.fired + [Record(alert, now, None, true)],
                       s.active[key := |s.fired|])
    case Resolve(service, severity, now) =>
      var key := Slot(service, severity);
      if key !in s.active || s.active[key] >= |s.fired| then s
      else
        var i := s.active[key];
        State(s.cooldowns - {key},
              s.fired[i := s.fired[i].(resolvedAt := Some(now), active := false)],
              s.active - {key})
    case ResetCooldowns(_) => s.(cooldowns := map[])
  }

  /** The two cases of a firing. */
  lemma FireIs(cooldownMs: int, s: State, alert: Alert, now: int)
    ensures var key := Slot(alert.service, alert.severity);
            Step(cooldownMs, s, Fire(alert, now))
            == if key in s.cooldowns && now - s.cooldowns[key] < cooldownMs then s
               else
                 State(s.cooldowns[key := now], s.fired + [Record(alert, now, None, true)],
                       s.active[key := |s.fired|])
  {
  }

  /** The two cases of a resolution. */
  lemma ResolveIs(cooldownMs: int, s: State, service: string, severity: Severity, now: int)
    requires forall k :: k in s.active ==> s.active[k] < |s.fired|
    ensures var key := Slot(service, severity);
            Step(cooldownMs, s, Resolve(service, severity, now))
            == if key !in s.active then s
               else
                 var i := s.active[key];
                 State(s.cooldowns - {key}, s.fired[i := s.fired[i].(resolvedAt := Some(now), active := false)],
                       s.active - {key})
  {
  }

  function Run(cooldownMs: int, ops: seq<Op>): State {
    if ops == [] then INITIAL else Step(cooldownMs, Run(cooldownMs, ops[..|ops| - 1]), ops[|ops| - 1])
  }

  lemma RunSnoc(cooldownMs: int, ops: seq<Op>, op: Op)
    ensures Run(cooldownMs, ops + [op]) == Step(cooldownMs, Run(cooldownMs, ops), op)
  {
    assert (ops + [op])[..|ops|] == ops;
  }

  ghost predicate Monotone(ops: seq<Op>) {
    forall i, j :: 0 <= i < j < |ops| ==> ops[i].now <= ops[j].now
  }

  ghost predicate NeverReset(ops: seq<Op>) {
    forall i :: 0 <= i < |ops| ==> !ops[i].ResetCooldowns?
  }

  /** The bounded history: the last `MAX_HISTORY` firings. */
  function LastFirings<T>(fired: seq<T>): seq<T> {
    fired[Max(0, |fired| - MAX_HISTORY)..]
  }

  // ---- Invariants of every run ----

  /** Each active key points at the latest firing of that key, which is flagged active. */
  ghost predicate PointsAtLatest(s: State) {
    && (forall k :: k in s.active ==> s.active[k] < |s.fired|)
    && (forall k :: k in s.active ==> SlotOf(s.fired[s.active[k]]) == k && s.fired[s.active[k]].active)
    && (forall k, j :: k in s.active && s.active[k] < j < |s.fired| ==> SlotOf(s.fired[j]) != k)
  }

  /** Only a resolved record is flagged inactive. */
  ghost predicate FlagsMean(s: State) {
    forall i :: 0 <= i < |s.fired| ==> (s.fired[i].active <==> s.fired[i].resolvedAt == None)
  }

  /** A record still flagged active is the one its key points at, or has a later firing of the same key. */
  ghost predicate StaleAreSuperseded(s: State) {
    forall i :: 0 <= i < |s.fired| && s.fired[i].active && !Current(s, i) ==> Superseded(s, i)
  }

  ghost predicate Consistent(s: State) {
    PointsAtLatest(s) && FlagsMean(s) && StaleAreSuperseded(s) && s.cooldowns.Keys <= s.active.Keys
  }

  /** Record `i` is the one its key points at. */
  ghost predicate Current(s: State, i: nat)
    requires i < |s.fired|
  {
    SlotOf(s.fired[i]) in s.active && s.active[SlotOf(s.fired[i])] == i
  }

  ghost predicate Superseded(s: State, i: nat)
    requires i < |s.fired|
  {
    exists j :: i < j < |s.fired| && SlotOf(s.fired[j]) == SlotOf(s.fired[i])
  }

  lemma SupersededStays(s: State, t: State, i: nat)
    requires i < |s.fired| <= |t.fired| && Superseded(s, i)
    requires forall j :: 0 <= j < |s.fired| ==> SlotOf(t.fired[j]) == SlotOf(s.fired[j])
    ensures Superseded(t, i)
  {
    var j :| i < j < |s.fired| && SlotOf(s.fired[j]) == SlotOf(s.fired[i]);
    assert SlotOf(t.fired[j]) == SlotOf(t.fired[i]);
  }

  /** `t` is `s` with one more record, which its key then points at. */
  ghost predicate Adds(s: State, t: State, r: Record) {
    && t.fired == s.fired + [r] && t.active == s.active[SlotOf(r) := |s.fired|]
    && t.cooldowns.Keys == s.cooldowns.Keys + {SlotOf(r)} && r.active && r.resolvedAt == None
  }

  lemma AddsKeepsStale(s: State, t: State, r: Record)
    requires StaleAreSuperseded(s) && Adds(s, t, r)
    ensures StaleAreSuperseded(t)
  {
    var n := |s.fired|;
    assert t.fired[n] == r;
    forall i | 0 <= i < |t.fired| && t.fired[i].active && !Current(t, i) ensures Superseded(t, i) {
      assert i < n && t.fired[i] == s.fired[i];
      if Current(s, i) {
        assert SlotOf(t.fired[n]) == SlotOf(t.fired[i]);
      } else {
        SupersededStays(s, t, i);
      }
    }
  }

  lemma AddsKeepsPoints(s: State, t: State, r: Record)
    requires PointsAtLatest(s) && FlagsMean(s) && Adds(s, t, r)
    ensures PointsAtLatest(t) && FlagsMean(t)
  {
  }

  lemma FireIsConsistent(cooldownMs: int, s: State, alert: Alert, now: int)
    requires Consistent(s)
    ensures Consistent(Step(cooldownMs, s, Fire(alert, now)))
  {
    FireIs(cooldownMs, s, alert, now);
    hide Step, PointsAtLatest, FlagsMean, StaleAreSuperseded;
    var t, r := Step(cooldownMs, s, Fire(alert, now)), Record(alert, now, None, true);
    if t != s {
      AddsKeepsStale(s, t, r);
      AddsKeepsPoints(s, t, r);
    }
  }

  /** `t` is `s` with the record of an active key resolved, and the key forgotten. */
  ghost predicate Drops(s: State, t: State, key: Slot, now: int)
    requires PointsAtLatest(s)
  {
    && key in s.active && t.active == s.active - {key} && t.cooldowns == s.cooldowns - {key}
    && t.fired == s.fired[s.active[key] := s.fired[s.active[key]].(resolvedAt := Some(now), active := false)]
  }

  lemma DropsKeepsStale(s: State, t: State, key: Slot, now: int)
    requires PointsAtLatest(s) && StaleAreSuperseded(s) && Drops(s, t, key, now)
    ensures StaleAreSuperseded(t)
  {
    forall i | 0 <= i < |t.fired| && t.fired[i].active && !Current(t, i) ensures Superseded(t, i) {
      assert t.fired[i] == s.fired[i] && !Current(s, i);
      SupersededStays(s, t, i);
    }
  }

  lemma DropsKeepsPoints(s: State, t: State, key: Slot, now: int)
    requires PointsAtLatest(s) && Drops(s, t, key, now)
    ensures PointsAtLatest(t)
  {
    assert forall j :: 0 <= j < |s.fired| ==> SlotOf(t.fired[j]) == SlotOf(s.fired[j]);
    forall k | k in t.active ensures t.active[k] == s.active[k] && t.fired[t.active[k]] == s.fired[s.active[k]] {
      assert s.active[k] != s.active[key];
    }
  }

  lemma DropsKeepsFlags(s: State, t: State, key: Slot, now: int)
    requires PointsAtLatest(s) && FlagsMean(s) && Drops(s, t, key, now)
    ensures FlagsMean(t)
  {
  }

  lemma PointsWithin(s: State)
    requires PointsAtLatest(s)
    ensures forall k :: k in s.active ==> s.active[k] < |s.fired|
  {
  }

  lemma ResolveIsConsistent(cooldownMs: int, s: State, service: string, severity: Severity, now: int)
    requires Consistent(s)
    ensures Consistent(Step(cooldownMs, s, Resolve(service, severity, now)))
  {
    PointsWithin(s);
    ResolveIs(cooldownMs, s, service, severity, now);
    hide Step, PointsAtLatest, FlagsMean, StaleAreSuperseded;
    var t, key := Step(cooldownMs, s, Resolve(service, severity, now)), Slot(service, severity);
    if key in s.active {
      DropsKeepsStale(s, t, key, now);
      DropsKeepsPoints(s, t, key, now);
      DropsKeepsFlags(s, t, key, now);
    }
  }

  lemma StepIsConsistent(cooldownMs: int, s: State, op: Op)
    requires Consistent(s)
    ensures Consistent(Step(cooldownMs, s, op))
  {
    match op
    case Fire(alert, now) => FireIsConsistent(cooldownMs, s, alert, now);
    case Resolve(service, severity, now) => ResolveIsConsistent(cooldownMs, s, service, severity, now);
    case ResetCooldowns(now) =>
      var t := Step(cooldownMs, s, op);
      forall i | 0 <= i < |t.fired| && t.fired[i].active && !Current(t, i) ensures Superseded(t, i) {
        assert !Current(s, i);
        SupersededStays(s, t, i);
      }
  }

  lemma {:induction false} AlwaysConsistent(cooldownMs: int, ops: seq<Op>)
    ensures Consistent(Run(cooldownMs, ops))
  {
    if ops != [] {
      AlwaysConsistent(cooldownMs, ops[..|ops| - 1]);
      StepIsConsistent(cooldownMs, Run(cooldownMs, ops[..|ops| - 1]), ops[|ops| - 1]);
    }
  }

  ghost predicate CoolingSinceFiring(s: State) {
    s.cooldowns.Keys == s.active.Keys
    && forall k :: k in s.active ==> s.active[k] < |s.fired| && s.cooldowns[k] == s.fired[s.active[k]].firedAt
  }

  lemma CoolingStep(cooldownMs: int, s: State, op: Op)
    requires PointsAtLatest(s) && CoolingSinceFiring(s) && !op.ResetCooldowns?
    ensures CoolingSinceFiring(Step(cooldownMs, s, op))
  {
    match op
    case Fire(alert, now) => FireIs(cooldownMs, s, alert, now);
    case Resolve(service, severity, now) => ResolveIs(cooldownMs, s, service, severity, now);
    hide Step;
  }

  lemma NothingIsCooling(cooldownMs: int)
    ensures CoolingSinceFiring(Run(cooldownMs, []))
  {
  }

  lemma PrefixOps(ops: seq<Op>)
    requires ops != []
    ensures Monotone(ops) ==> Monotone(ops[..|ops| - 1])
    ensures NeverReset(ops) ==> NeverReset(ops[..|ops| - 1]) && !ops[|ops| - 1].ResetCooldowns?
    ensures Monotone(ops) && |ops| >= 2 ==> ops[|ops| - 2].now <= ops[|ops| - 1].now
  {
  }

  /** While cooldowns are not reset by hand, exactly the active keys are cooling down, each since its
      current record fired. */
  lemma {:induction false} CooldownsAreActiveAlerts(cooldownMs: int, ops: seq<Op>)
    requires NeverReset(ops)
    ensures CoolingSinceFiring(Run(cooldownMs, ops))
  {
    hide Step, Run, CoolingSinceFiring, PointsAtLatest, StaleAreSuperseded, FlagsMean, NeverReset, Monotone;
    if ops == [] {
      NothingIsCooling(cooldownMs);
    } else {
      var init, op := ops[..|ops| - 1], ops[|ops| - 1];
      PrefixOps(ops);
      CooldownsAreActiveAlerts(cooldownMs, init);
      AlwaysConsistent(cooldownMs, init);
      assert ops == init + [op];
      RunSnoc(cooldownMs, init, op);
      CoolingStep(cooldownMs, Run(cooldownMs, init), op);
    }
  }

  ghost predicate FiredBy(s: State, clock: int) {
    forall i :: 0 <= i < |s.fired| ==> s.fired[i].firedAt <= clock
  }

  lemma {:induction false} FiredBefore(cooldownMs: int, ops: seq<Op>, clock: int)
    requires Monotone(ops) && (ops != [] ==> ops[|ops| - 1].now <= clock)
    ensures FiredBy(Run(cooldownMs, ops), clock)
  {
    if ops != [] {
      FiredBefore(cooldownMs, ops[..|ops| - 1], ops[|ops| - 1].now);
    }
  }

  ghost predicate SpacedFrom(cooldownMs: int, s: State, i: nat, j: nat)
    requires i < |s.fired| && j < |s.fired|
  {
    i < j && SlotOf(s.fired[i]) == SlotOf(s.fired[j]) && s.fired[i].resolvedAt == None
    ==> s.fired[j].firedAt - s.fired[i].firedAt >= cooldownMs
  }

  ghost predicate Spaced(cooldownMs: int, s: State) {
    forall i, j :: 0 <= i < |s.fired| && 0 <= j < |s.fired| ==> SpacedFrom(cooldownMs, s, i, j)
  }

  /** A record that differs from what it was at most in having been resolved. */
  ghost predicate Resolves(before: Record, after: Record) {
    after == before || (after.alert == before.alert && after.firedAt == before.firedAt && after.resolvedAt.Some?)
  }

  lemma ResolvingKeepsSpaced(cooldownMs: int, s: State, t: State)
    requires Spaced(cooldownMs, s) && |t.fired| == |s.fired|
    requires forall i :: 0 <= i < |s.fired| ==> Resolves(s.fired[i], t.fired[i])
    ensures Spaced(cooldownMs, t)
  {
    forall i, j | 0 <= i < |t.fired| && 0 <= j < |t.fired| ensures SpacedFrom(cooldownMs, t, i, j) {
      assert SpacedFrom(cooldownMs, s, i, j);
    }
  }

  /** A new record is far enough from every unresolved one of its key when it is from the current one. */
  lemma AddingKeepsSpaced(cooldownMs: int, s: State, t: State, r: Record)
    requires Spaced(cooldownMs, s) && StaleAreSuperseded(s) && FlagsMean(s) && Adds(s, t, r)
    requires forall i :: 0 <= i < |s.fired| ==> s.fired[i].firedAt <= r.firedAt
    requires forall i :: 0 <= i < |s.fired| && Current(s, i) && SlotOf(s.fired[i]) == SlotOf(r) ==>
               r.firedAt - s.fired[i].firedAt >= cooldownMs
    ensures Spaced(cooldownMs, t)
  {
    forall i, j | 0 <= i < |t.fired| && 0 <= j < |t.fired| ensures SpacedFrom(cooldownMs, t, i, j) {
      if i < |s.fired| && j < |s.fired| {
        assert SpacedFrom(cooldownMs, s, i, j);
      } else if i < j && SlotOf(t.fired[i]) == SlotOf(t.fired[j]) && t.fired[i].resolvedAt == None {
        if !Current(s, i) {
          assert Superseded(s, i);
          var k :| i < k < |s.fired| && SlotOf(s.fired[k]) == SlotOf(s.fired[i]);
          assert SpacedFrom(cooldownMs, s, i, k);
        }
      }
    }
  }

  lemma FireKeepsSpaced(cooldownMs: int, s: State, alert: Alert, now: int)
    requires Spaced(cooldownMs, s) && Consistent(s) && CoolingSinceFiring(s) && FiredBy(s, now)
    ensures Spaced(cooldownMs, Step(cooldownMs, s, Fire(alert, now)))
  {
    FireIs(cooldownMs, s, alert, now);
    hide Step, Spaced, StaleAreSuperseded, FlagsMean, PointsAtLatest;
    var t, r := Step(cooldownMs, s, Fire(alert, now)), Record(alert, now, None, true);
    if t != s {
      AddingKeepsSpaced(cooldownMs, s, t, r);
    }
  }

  lemma ResolveKeepsSpaced(cooldownMs: int, s: State, service: string, severity: Severity, now: int)
    requires Spaced(cooldownMs, s) && Consistent(s)
    ensures Spaced(cooldownMs, Step(cooldownMs, s, Resolve(service, severity, now)))
  {
    PointsWithin(s);
    ResolveIs(cooldownMs, s, service, severity, now);
    hide Step, Spaced, StaleAreSuperseded, FlagsMean, PointsAtLatest;
    if Slot(service, severity) in s.active {
      ResolvingKeepsSpaced(cooldownMs, s, Step(cooldownMs, s, Resolve(service, severity, now)));
    }
  }

  lemma NothingFiredIsSpaced(cooldownMs: int)
    ensures Spaced(cooldownMs, Run(cooldownMs, []))
  {
  }

  /** Two firings of the same key, the earlier one never resolved, are at least the cooldown apart. */
  lemma {:induction false} UnresolvedFiringsAreSpaced(cooldownMs: int, ops: seq<Op>)
    requires Monotone(ops) && NeverReset(ops)
    ensures Spaced(cooldownMs, Run(cooldownMs, ops))
  {
    hide Run, Step, Spaced, Consistent, CoolingSinceFiring, FiredBy, Monotone, NeverReset;
    if ops == [] {
      NothingFiredIsSpaced(cooldownMs);
    } else {
      var init, op := ops[..|ops| - 1], ops[|ops| - 1];
      PrefixOps(ops);
      UnresolvedFiringsAreSpaced(cooldownMs, init);
      AlwaysConsistent(cooldownMs, init);
      CooldownsAreActiveAlerts(cooldownMs, init);
      FiredBefore(cooldownMs, init, op.now);
      assert ops == init + [op];
      RunSnoc(cooldownMs, init, op);
      match op
      case Fire(alert, now) => FireKeepsSpaced(cooldownMs, Run(cooldownMs, init), alert, now);
      case Resolve(service, severity, now) =>
        ResolveKeepsSpaced(cooldownMs, Run(cooldownMs, init), service, severity, now);
    }
  }

  /** Some unresolved firing of this slot is less than the cooldown ago. */
  ghost predicate RecentlyFired(cooldownMs: int, s: State, key: Slot, now: int) {
    exists i :: 0 <= i < |s.fired| && SlotOf(s.fired[i]) == key && s.fired[i].resolvedAt == None
                && now - s.fired[i].firedAt < cooldownMs
  }

  lemma SuppressedIffRecent(cooldownMs: int, s: State, key: Slot, now: int)
    requires Spaced(cooldownMs, s) && Consistent(s) && CoolingSinceFiring(s) && FiredBy(s, now)
    ensures Suppressed(cooldownMs, s, key, now) <==> RecentlyFired(cooldownMs, s, key, now)
  {
    if Suppressed(cooldownMs, s, key, now) {
      assert SlotOf(s.fired[s.active[key]]) == key;
    }
    if RecentlyFired(cooldownMs, s, key, now) {
      var i :| 0 <= i < |s.fired| && SlotOf(s.fired[i]) == key && s.fired[i].resolvedAt == None
               && now - s.fired[i].firedAt < cooldownMs;
      assert Superseded(s, i) || Current(s, i);
      if Superseded(s, i) {
        SupersededIsOld(cooldownMs, s, i, now);
      }
    }
  }

  lemma SupersededIsOld(cooldownMs: int, s: State, i: nat, now: int)
    requires Spaced(cooldownMs, s) && FiredBy(s, now)
    requires i < |s.fired| && s.fired[i].resolvedAt == None && Superseded(s, i)
    ensures now - s.fired[i].firedAt >= cooldownMs
  {
    var k :| i < k < |s.fired| && SlotOf(s.fired[k]) == SlotOf(s.fired[i]);
    assert SpacedFrom(cooldownMs, s, i, k);
  }

  /** A firing is recorded, as a new active record, iff no unresolved firing of its service and severity is less
      than the cooldown ago; otherwise it leaves no trace. */
  lemma RecordedIffNoneRecent(cooldownMs: int, ops: seq<Op>, alert: Alert, now: int)
    requires Monotone(ops) && NeverReset(ops) && (ops != [] ==> ops[|ops| - 1].now <= now)
    ensures var s, t := Run(cooldownMs, ops), Run(cooldownMs, ops + [Fire(alert, now)]);
            if RecentlyFired(cooldownMs, s, Slot(alert.service, alert.severity), now) then t == s
            else t.fired == s.fired + [Record(alert, now, None, true)]
  {
    UnresolvedFiringsAreSpaced(cooldownMs, ops);
    AlwaysConsistent(cooldownMs, ops);
    CooldownsAreActiveAlerts(cooldownMs, ops);
    FiredBefore(cooldownMs, ops, now);
    RunSnoc(cooldownMs, ops, Fire(alert, now));
    hide Run, Spaced, Consistent, CoolingSinceFiring, FiredBy, Monotone, NeverReset, RecentlyFired;
    var s := Run(cooldownMs, ops);
    SuppressedIffRecent(cooldownMs, s, Slot(alert.service, alert.severity), now);
    FireIs(cooldownMs, s, alert, now);
    hide Step;
  }

  /** After a manual reset every firing is recorded, whatever happened before and however recently. */
  lemma ResetAllowsFiring(cooldownMs: int, ops: seq<Op>, at: int, alert: Alert, now: int)
    ensures var s := Run(cooldownMs, ops);
            var reset := Run(cooldownMs, ops + [ResetCooldowns(at)]);
            var t := Run(cooldownMs, ops + [ResetCooldowns(at)] + [Fire(alert, now)]);
            && reset.fired == s.fired && reset.active == s.active
            && t.fired == s.fired + [Record(alert, now, None, true)]
  {
    RunSnoc(cooldownMs, ops, ResetCooldowns(at));
    RunSnoc(cooldownMs, ops + [ResetCooldowns(at)], Fire(alert, now));
    hide Run;
  }

  lemma ResolvesCurrent(cooldownMs: int, s: State, service: string, severity: Severity, now: int, i: nat)
    requires Consistent(s) && i < |s.fired|
    ensures var key, t := Slot(service, severity), Step(cooldownMs, s, Resolve(service, severity, now));
            && |t.fired| == |s.fired|
            && t.fired[i] == if SlotOf(s.fired[i]) == key && !Superseded(s, i) && s.fired[i].resolvedAt == None
                             then s.fired[i].(resolvedAt := Some(now), active := false) else s.fired[i]
  {
    ResolveIs(cooldownMs, s, service, severity, now);
    hide Step;
  }

  /** A resolution resolves the latest firing of its service and severity, if that is not resolved, and no other. */
  lemma ResolvesLatestAlone(cooldownMs: int, ops: seq<Op>, service: string, severity: Severity, now: int, i: nat)
    requires i < |Run(cooldownMs, ops).fired|
    ensures var s, t := Run(cooldownMs, ops), Run(cooldownMs, ops + [Resolve(service, severity, now)]);
            var r := s.fired[i];
            && |t.fired| == |s.fired|
            && t.fired[i] == if r.alert.service == service && r.alert.severity == severity && r.resolvedAt == None
                                && !Superseded(s, i)
                             then Record(r.alert, r.firedAt, Some(now), false) else r
  {
    AlwaysConsistent(cooldownMs, ops);
    RunSnoc(cooldownMs, ops, Resolve(service, severity, now));
    hide Run, Step, Consistent, Superseded;
    ResolvesCurrent(cooldownMs, Run(cooldownMs, ops), service, severity, now, i);
  }

  // ---- The history's active flags ----

  function FlaggedActive(): Record -> bool {
    (r: Record) => r.active
  }

  /** A firing leaves a record flagged active behind iff its key was still active, that is, when the
      cooldown ran out before anything resolved the alert. */
  lemma {:induction false} FiringLeaksIffUnresolved(cooldownMs: int, ops: seq<Op>, alert: Alert, now: int)
    requires var s := Run(cooldownMs, ops); !Suppressed(cooldownMs, s, Slot(alert.service, alert.severity), now)
    ensures var s, t := Run(cooldownMs, ops), Run(cooldownMs, ops + [Fire(alert, now)]);
            Slot(alert.service, alert.severity) in s.active
            <==> exists i :: 0 <= i < |s.fired| && Current(s, i) && t.fired[i].active && !Current(t, i)
  {
    RunSnoc(cooldownMs, ops, Fire(alert, now));
    AlwaysConsistent(cooldownMs, ops);
    var s, t := Run(cooldownMs, ops), Run(cooldownMs, ops + [Fire(alert, now)]);
    var key := Slot(alert.service, alert.severity);
    if key in s.active {
      var i := s.active[key];
      assert Current(s, i) && t.fired[i].active && !Current(t, i);
    }
  }

  ghost predicate Stale(s: State, i: nat) {
    i < |s.fired| && s.fired[i].active && !Current(s, i)
  }

  lemma StaleStays(cooldownMs: int, s: State, op: Op, i: nat)
    requires PointsAtLatest(s) && Stale(s, i)
    ensures Stale(Step(cooldownMs, s, op), i)
  {
    match op
    case Fire(alert, now) => FireIs(cooldownMs, s, alert, now);
    case Resolve(service, severity, now) => ResolveIs(cooldownMs, s, service, severity, now);
    case ResetCooldowns(_) =>
  }

  /** Such a record can never be resolved: it stays flagged active whatever happens. */
  lemma {:induction false} LeakIsForever(cooldownMs: int, ops: seq<Op>, more: seq<Op>, i: nat)
    requires Stale(Run(cooldownMs, ops), i)
    ensures Stale(Run(cooldownMs, ops + more), i)
  {
    if more == [] {
      assert ops + more == ops;
    } else {
      hide Run, Step, Stale, PointsAtLatest, FlagsMean, StaleAreSuperseded;
      var init, op := more[..|more| - 1], more[|more| - 1];
      LeakIsForever(cooldownMs, ops, init, i);
      AlwaysConsistent(cooldownMs, ops + init);
      assert ops + more == (ops + init) + [op];
      RunSnoc(cooldownMs, ops + init, op);
      StaleStays(cooldownMs, Run(cooldownMs, ops + init), op, i);
    }
  }

  /** How many firings so far left a stale record behind. */
  function Leaks(cooldownMs: int, ops: seq<Op>): nat {
    if ops == [] then 0
    else
      var init, op := ops[..|ops| - 1], ops[|ops| - 1];
      Leaks(cooldownMs, init) + if Leaking(cooldownMs, Run(cooldownMs, init), op) then 1 else 0
  }

  /** A firing that is not suppressed although its key is active. */
  predicate Leaking(cooldownMs: int, s: State, op: Op) {
    op.Fire?
    && var key := Slot(op.alert.service, op.alert.severity);
       !Suppressed(cooldownMs, s, key, op.now) && key in s.active
  }

  lemma StepFlags(cooldownMs: int, s: State, op: Op)
    requires PointsAtLatest(s)
    ensures var t := Step(cooldownMs, s, op);
            Count(t.fired, FlaggedActive()) - |t.active|
            == Count(s.fired, FlaggedActive()) - |s.active| + if Leaking(cooldownMs, s, op) then 1 else 0
  {
    var t := Step(cooldownMs, s, op);
    hide Count;
    match op
    case Fire(alert, now) =>
      FireIs(cooldownMs, s, alert, now);
      hide Step, PointsAtLatest;
      var key := Slot(alert.service, alert.severity);
      CountSnoc(s.fired, Record(alert, now, None, true), FlaggedActive());
      if t != s {
        assert t.active.Keys == s.active.Keys + {key};
      }
    case Resolve(service, severity, now) =>
      ResolveIs(cooldownMs, s, service, severity, now);
      hide Step;
      var key := Slot(service, severity);
      if key in s.active {
        var i := s.active[key];
        CountUpdate(s.fired, i, s.fired[i].(resolvedAt := Some(now), active := false), FlaggedActive());
        assert t.active.Keys == s.active.Keys - {key};
      }
    case ResetCooldowns(_) =>
  }

  /** In every run, the records flagged active, of all that were ever fired, are the active alerts and one for
      each firing that leaked. */
  lemma {:induction false} FlagsAreActiveAndLeaks(cooldownMs: int, ops: seq<Op>)
    ensures Count(Run(cooldownMs, ops).fired, FlaggedActive())
            == |Run(cooldownMs, ops).active| + Leaks(cooldownMs, ops)
  {
    if ops != [] {
      hide Step, Count, PointsAtLatest, FlagsMean, StaleAreSuperseded, Leaking;
      var init := ops[..|ops| - 1];
      FlagsAreActiveAndLeaks(cooldownMs, init);
      AlwaysConsistent(cooldownMs, init);
      StepFlags(cooldownMs, Run(cooldownMs, init), ops[|ops| - 1]);
    }
  }

  lemma TwoFiringsSteps(cooldownMs: int, alert: Alert, now: int)
    ensures var one := Step(cooldownMs, INITIAL, Fire(alert, now));
            var two := Step(cooldownMs, one, Fire(alert, now + cooldownMs));
            var three := Step(cooldownMs, two, Resolve(alert.service, alert.severity, now + cooldownMs));
            three.active == map[] && |three.fired| == 2 && three.fired[0].active && !three.fired[1].active
  {
    var key := Slot(alert.service, alert.severity);
    var first, second := Record(alert, now, None, true), Record(alert, now + cooldownMs, None, true);
    FireIs(cooldownMs, INITIAL, alert, now);
    var one := Step(cooldownMs, INITIAL, Fire(alert, now));
    FireIs(cooldownMs, one, alert, now + cooldownMs);
    var two := Step(cooldownMs, one, Fire(alert, now + cooldownMs));
    hide Step;
    assert one.active == map[key := 0] && one.fired == [first] && one.cooldowns == map[key := now];
    assert two.active == map[key := 1] && two.fired == [first, second];
    ResolveIs(cooldownMs, two, alert.service, alert.severity, now + cooldownMs);
    assert two.active - {key} == map[];
  }

  /** Two firings one cooldown apart and a resolution: nothing is active, and one record is still flagged. */
  lemma TwoFiringsLeak(cooldownMs: int, alert: Alert, now: int)
    ensures var ops := [Fire(alert, now), Fire(alert, now + cooldownMs),
                        Resolve(alert.service, alert.severity, now + cooldownMs)];
            var s := Run(cooldownMs, ops);
            s.active == map[] && |s.fired| == 2 && s.fired[0].active && !s.fired[1].active
  {
    assert Run(cooldownMs, []) == INITIAL;
    hide Run, Step;
    var a, b := Fire(alert, now), Fire(alert, now + cooldownMs);
    var c := Resolve(alert.service, alert.severity, now + cooldownMs);
    assert [a, b, c] == [] + [a] + [b] + [c];
    RunSnoc(cooldownMs, [], a);
    RunSnoc(cooldownMs, [] + [a], b);
    RunSnoc(cooldownMs, [] + [a] + [b], c);
    TwoFiringsSteps(cooldownMs, alert, now);
  }

  // ---- What the bounded history shows ----

  function ShownFrom(s: State): nat {
    if |s.fired| <= 500 then 0 else |s.fired| - 500
  }

  /** The firings that the history lists when asked for active alerts only. */
  function ShownActive(s: State): set<nat> {
    set i: nat | ShownFrom(s) <= i < |s.fired| && s.fired[i].active
  }

  /** The history's active entries are exactly the active alerts iff no unresolved firing it holds was followed
      by another of its key, and every active alert is among the last 500 firings. */
  lemma HistoryShowsActiveIff(cooldownMs: int, ops: seq<Op>)
    ensures var s := Run(cooldownMs, ops);
            ShownActive(s) == s.active.Values
            <==> && (forall i: nat ::
                    ShownFrom(s) <= i < |s.fired| && s.fired[i].resolvedAt == None ==> !Superseded(s, i))
                 && (forall k :: k in s.active ==> |s.fired| - s.active[k] <= 500)
  {
    AlwaysConsistent(cooldownMs, ops);
    hide Run;
    ConsistentShowsActiveIff(Run(cooldownMs, ops));
  }

  lemma CurrentIsNotSuperseded(s: State, k: Slot)
    requires PointsAtLatest(s) && k in s.active
    ensures Current(s, s.active[k]) && !Superseded(s, s.active[k]) && s.fired[s.active[k]].active
  {
  }

  lemma ConsistentShowsActiveIff(s: State)
    requires Consistent(s)
    ensures ShownActive(s) == s.active.Values
            <==> && (forall i: nat ::
                    ShownFrom(s) <= i < |s.fired| && s.fired[i].resolvedAt == None ==> !Superseded(s, i))
                 && (forall k :: k in s.active ==> |s.fired| - s.active[k] <= 500)
  {
    PointsWithin(s);
    forall k | k in s.active ensures !Superseded(s, s.active[k]) && s.fired[s.active[k]].active {
      CurrentIsNotSuperseded(s, k);
    }
    hide Superseded, PointsAtLatest;
    if ShownActive(s) == s.active.Values {
      forall i: nat | ShownFrom(s) <= i < |s.fired| && s.fired[i].resolvedAt == None ensures !Superseded(s, i) {
        assert i in ShownActive(s);
        assert i in s.active.Values;
      }
      forall k | k in s.active ensures |s.fired| - s.active[k] <= 500 {
        assert s.active[k] in s.active.Values;
      }
    }
    if (forall i: nat :: ShownFrom(s) <= i < |s.fired| && s.fired[i].resolvedAt == None ==> !Superseded(s, i))
       && (forall k :: k in s.active ==> |s.fired| - s.active[k] <= 500) {
      forall i: nat | i in ShownActive(s) ensures i in s.active.Values {
        assert Current(s, i);
      }
      assert ShownActive(s) == s.active.Values;
    }
  }

  function FlaggedIn(records: seq<Record>): set<nat> {
    set i: nat | i < |records| && records[i].active
  }

  lemma FlaggedSnoc(records: seq<Record>, r: Record)
    ensures |FlaggedIn(records + [r])| == |FlaggedIn(records)| + if r.active then 1 else 0
  {
    assert FlaggedIn(records + [r]) == FlaggedIn(records) + if r.active then {|records|} else {};
  }

  lemma {:induction false} FlaggedIndices(records: seq<Record>)
    ensures |FlaggedIn(records)| == Count(records, FlaggedActive())
  {
    if records == [] {
      assert FlaggedIn(records) == {};
    } else {
      hide FlaggedIn, Count;
      var init, last := records[..|records| - 1], records[|records| - 1];
      assert records == init + [last];
      FlaggedIndices(init);
      FlaggedSnoc(init, last);
      CountSnoc(init, last, FlaggedActive());
    }
  }

  lemma {:induction false} InjectiveValues(m: map<Slot, nat>)
    requires forall k, l :: k in m && l in m && k != l ==> m[k] != m[l]
    ensures |m.Values| == |m|
    decreases |m|
  {
    if m.Keys == {} {
      assert m == map[] && m.Values == {};
    } else {
      var k :| k in m;
      var rest := m - {k};
      assert rest.Keys == m.Keys - {k};
      InjectiveValues(rest);
      forall v | v in m.Values ensures v in rest.Values + {m[k]} {
        var l :| l in m && m[l] == v;
        assert l != k ==> l in rest && rest[l] == v;
      }
      assert m.Values == rest.Values + {m[k]};
    }
  }

  lemma SubsetOfSameSize(a: set<nat>, b: set<nat>)
    requires a <= b && |a| == |b|
    ensures a == b
  {
    assert b == a + (b - a);
  }

  /** As long as nothing has been dropped from the history, that is the case iff no firing leaked. */
  lemma ShowsActiveIffNoLeak(cooldownMs: int, ops: seq<Op>)
    requires |Run(cooldownMs, ops).fired| <= 500
    ensures ShownActive(Run(cooldownMs, ops)) == Run(cooldownMs, ops).active.Values <==> Leaks(cooldownMs, ops) == 0
  {
    AlwaysConsistent(cooldownMs, ops);
    FlagsAreActiveAndLeaks(cooldownMs, ops);
    hide Run, Leaks, Count, FlagsMean, StaleAreSuperseded;
    var s := Run(cooldownMs, ops);
    FlaggedIndices(s.fired);
    InjectiveValues(s.active);
    assert ShownActive(s) == FlaggedIn(s.fired);
    assert s.active.Values <= ShownActive(s);
    if Leaks(cooldownMs, ops) == 0 {
      SubsetOfSameSize(s.active.Values, ShownActive(s));
    }
  }
}
