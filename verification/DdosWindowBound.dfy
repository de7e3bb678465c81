/** How many requests of one address the detector can let through in any interval as long as its
    counting window: at most two full windows' worth, exactly when the block is long enough. */
module DdosWindowBound {
  import opened Requests
  import opened Sequences
  import opened DdosProtection

  /** The most requests one counting window admits: the first is never counted against the threshold. */
  function PerWindow(c: Config): int {
    Max(1, c.threshold)
  }

  function Within(c: Config, from: int): int -> bool {
    (t: int) => from <= t < from + c.window
  }

  /** The condition on the three constants under which the bound holds in every run. */
  predicate SafeTimings(c: Config) {
    c.window <= 0
    || (2 * c.blockDuration >= c.window && (c.threshold >= 2 ==> c.blockDuration >= c.window - 1))
  }

  // ---- Sufficiency ----

  /** The admitted requests split by counting window: the current one, the one before, the rest. */
  datatype Windows = Windows(older: seq<int>, previous: seq<int>, current: seq<int>)

  function All(w: Windows): seq<int> {
    w.older + w.previous + w.current
  }

  function WindowsAfter(c: Config, ts: seq<int>): Windows {
    if ts == [] then Windows([], [], [])
    else
      var before, now := ts[..|ts| - 1], ts[|ts| - 1];
      var w := WindowsAfter(c, before);
      if VerdictAt(c, ts, |ts| - 1) != Next then w
      else if EntryAfter(c, ts).value.count == 1 then Windows(w.older + w.previous, w.current, [now])
      else w.(current := w.current + [now])
  }

  /** The least distance between an admission of one window and the start of the next. */
  function Gap(c: Config): int {
    var free := if c.threshold >= 2 then 1 else c.window + 1;
    if c.blockDuration < free then c.blockDuration else free
  }

  /** How the entry of an address relates to its windows of admitted requests. */
  ghost predicate Accounts(c: Config, p: Pattern, w: Windows) {
    && 1 <= |w.current| <= PerWindow(c) && |w.previous| <= PerWindow(c)
    && (if p.blocked then p.blockedAt.Some? && p.firstSeen <= BlockTime(p) <= p.lastSeen
        else p.count == |w.current|)
    && p.lastSeen <= p.firstSeen + c.window && p.firstSeen <= p.lastSeen
    && (forall x :: x in w.current ==> p.firstSeen <= x <= if p.blocked then BlockTime(p) else p.lastSeen)
    && (PerWindow(c) == 1 ==> forall x :: x in w.current ==> x == p.firstSeen)
    && (forall x :: x in w.previous ==> x + Gap(c) <= p.firstSeen)
    && (forall x :: x in w.older ==> x + c.window <= p.firstSeen)
    && w.current[0] == p.firstSeen
    && (c.blockDuration >= c.window && w.previous != [] ==> w.previous[0] + c.window <= p.firstSeen)
  }

  /** One request keeps the account, when timings are safe and the clock has not gone back. */
  lemma AccountsStep(c: Config, p: Pattern, w: Windows, now: int)
    requires c.window > 0 && SafeTimings(c) && Accounts(c, p, w) && p.lastSeen <= now
    ensures var (q, verdict) := Handle(c, Some(p), now);
            var w' := if verdict != Next then w
                      else if q.count == 1 then Windows(w.older + w.previous, w.current, [now])
                      else w.(current := w.current + [now]);
            Accounts(c, q, w') && q.lastSeen <= now
  {
  }

  lemma FirstAccounts(c: Config, ts: seq<int>)
    requires |ts| == 1 && c.window > 0 && SafeTimings(c)
    ensures EntryAfter(c, ts) == Some(Opening(ts[0])) && WindowsAfter(c, ts) == Windows([], [], [ts[0]])
    ensures Accounts(c, Opening(ts[0]), Windows([], [], [ts[0]]))
    ensures Admitted(c, ts) == All(WindowsAfter(c, ts))
  {
    assert ts[..0] == [] && [] + [ts[0]] == [ts[0]];
    assert EntryAfter(c, []) == None && WindowsAfter(c, []) == Windows([], [], []) && Admitted(c, []) == [];
  }

  lemma {:induction false} AccountsAlways(c: Config, ts: seq<int>)
    requires c.window > 0 && SafeTimings(c) && Sorted(ts) && ts != []
    ensures EntryAfter(c, ts).Some? && Accounts(c, EntryAfter(c, ts).value, WindowsAfter(c, ts))
    ensures EntryAfter(c, ts).value.lastSeen <= ts[|ts| - 1]
    ensures Admitted(c, ts) == All(WindowsAfter(c, ts))
  {
    hide Accounts, Handle, SafeTimings;
    var before, now := ts[..|ts| - 1], ts[|ts| - 1];
    if before == [] {
      FirstAccounts(c, ts);
    } else {
      AccountsAlways(c, before);
      AccountsStep(c, EntryAfter(c, before).value, WindowsAfter(c, before), now);
      var w := WindowsAfter(c, before);
      assert All(Windows(w.older + w.previous, w.current, [now])) == All(w) + [now];
      assert All(w.(current := w.current + [now])) == All(w) + [now];
      assert Admitted(c, before) + [] == Admitted(c, before);
    }
  }

  /** The most that safe timings let through in an interval of length `window`: two whole windows' worth when
      the block is the shorter; otherwise the request that opened the first of two windows lies before the
      interval; and an interval of one tick sees one window only. */
  function Most(c: Config): int {
    if c.window <= 0 then 0
    else if c.window == 1 then PerWindow(c)
    else if c.blockDuration >= c.window then 2 * PerWindow(c) - 1
    else 2 * PerWindow(c)
  }

  lemma CountAtMost(s: seq<int>, p: int -> bool)
    ensures Count(s, p) <= |s|
    ensures s != [] && !p(s[0]) ==> Count(s, p) <= |s| - 1
  {
    if s != [] && !p(s[0]) {
      assert s == [s[0]] + s[1..];
      FilterConcat([s[0]], s[1..], p);
      NoneCounted([s[0]], p);
    }
  }

  lemma CountAll(w: Windows, p: int -> bool)
    ensures Count(All(w), p) == Count(w.older, p) + Count(w.previous, p) + Count(w.current, p)
  {
    hide Filter;
    FilterConcat(w.older + w.previous, w.current, p);
    FilterConcat(w.older, w.previous, p);
  }

  /** What the account says about an interval that holds the latest admission. */
  lemma AccountsWithin(c: Config, p: Pattern, w: Windows, from: int)
    requires c.window > 0 && SafeTimings(c) && Accounts(c, p, w) && Within(c, from)(w.current[|w.current| - 1])
    ensures forall x :: x in w.older ==> !Within(c, from)(x)
    ensures c.window == 1 ==> forall x :: x in w.previous ==> !Within(c, from)(x)
    ensures c.blockDuration >= c.window && w.previous != [] ==> !Within(c, from)(w.previous[0])
    ensures |w.current| <= PerWindow(c) && |w.previous| <= PerWindow(c)
  {
    assert w.current[|w.current| - 1] in w.current;
  }

  /** At an admission at `now`, an interval that holds `now` holds at most `Most` admissions. */
  lemma AccountsBound(c: Config, p: Pattern, w: Windows, now: int, from: int)
    requires c.window > 0 && SafeTimings(c) && Accounts(c, p, w)
    requires w.current[|w.current| - 1] == now && Within(c, from)(now)
    ensures Count(All(w), Within(c, from)) <= Most(c)
  {
    AccountsWithin(c, p, w, from);
    hide Accounts, Count, All, Within;
    CountAll(w, Within(c, from));
    NoneCounted(w.older, Within(c, from));
    CountAtMost(w.previous, Within(c, from));
    CountAtMost(w.current, Within(c, from));
    if c.window == 1 {
      NoneCounted(w.previous, Within(c, from));
    }
  }

  lemma AdmittedIsLast(c: Config, ts: seq<int>)
    requires ts != [] && VerdictAt(c, ts, |ts| - 1) == Next
    ensures var w := WindowsAfter(c, ts); w.current != [] && w.current[|w.current| - 1] == ts[|ts| - 1]
  {
  }

  /** With safe timings, no half-open interval of length `window` ever holds more than `Most` admitted
      requests of one address, which is at most twice `PerWindow`. */
  lemma {:induction false} BoundHolds(c: Config, ts: seq<int>, from: int)
    requires SafeTimings(c) && Sorted(ts)
    ensures Count(Admitted(c, ts), Within(c, from)) <= Most(c) <= 2 * PerWindow(c)
  {
    hide Accounts, WindowsAfter, VerdictAt, EntryAfter, SafeTimings, Filter;
    if c.window <= 0 {
      NoneCounted(Admitted(c, ts), Within(c, from));
    } else if ts == [] {
      NoneCounted(Admitted(c, ts), Within(c, from));
    } else {
      var before, now := ts[..|ts| - 1], ts[|ts| - 1];
      BoundHolds(c, before, from);
      CountSnoc(Admitted(c, before), now, Within(c, from));
      if VerdictAt(c, ts, |ts| - 1) == Next && Within(c, from)(now) {
        AccountsAlways(c, ts);
        AdmittedIsLast(c, ts);
        AccountsBound(c, EntryAfter(c, ts).value, WindowsAfter(c, ts), now, from);
      } else {
        assert Admitted(c, before) + [] == Admitted(c, before);
      }
    }
  }

  // ---- Necessity ----

  function Repeat(t: int, n: nat): seq<int> {
    seq(n, _ => t)
  }

  lemma RepeatSnoc(ts: seq<int>, t: int, n: nat)
    requires n > 0
    ensures (ts + Repeat(t, n))[..|ts| + n - 1] == ts + Repeat(t, n - 1)
    ensures Repeat(t, n) == Repeat(t, n - 1) + [t]
  {
  }

  /** The next request opens a new counting window. */
  predicate Restarts(c: Config, ts: seq<int>, t: int) {
    var entry := EntryAfter(c, ts);
    entry.None?
    || if entry.value.blocked then t - BlockTime(entry.value) >= c.blockDuration
       else t - entry.value.firstSeen > c.window
  }

  lemma NextAfter(c: Config, ts: seq<int>, t: int)
    ensures EntryAfter(c, ts + [t]) == Some(Handle(c, EntryAfter(c, ts), t).0)
    ensures Admitted(c, ts + [t])
            == Admitted(c, ts) + if Handle(c, EntryAfter(c, ts), t).1 == Next then [t] else []
  {
    assert (ts + [t])[..|ts|] == ts;
  }

  /** Further requests in an open window are admitted until it holds `threshold`. */
  lemma {:induction false} Fill(c: Config, ts: seq<int>, t: int, n: nat)
    requires EntryAfter(c, ts).Some? && !EntryAfter(c, ts).value.blocked
    requires t - EntryAfter(c, ts).value.firstSeen <= c.window
    requires n > 0 ==> EntryAfter(c, ts).value.count + n <= c.threshold
    ensures var p := EntryAfter(c, ts + Repeat(t, n));
            p.Some? && !p.value.blocked && p.value.firstSeen == EntryAfter(c, ts).value.firstSeen
            && p.value.count == EntryAfter(c, ts).value.count + n
    ensures Admitted(c, ts + Repeat(t, n)) == Admitted(c, ts) + Repeat(t, n)
  {
    hide EntryAfter, Admitted;
    if n == 0 {
      assert ts + Repeat(t, 0) == ts;
      assert Admitted(c, ts) + Repeat(t, 0) == Admitted(c, ts);
    } else {
      Fill(c, ts, t, n - 1);
      RepeatSnoc(ts, t, n);
      assert ts + Repeat(t, n) == (ts + Repeat(t, n - 1)) + [t];
      NextAfter(c, ts + Repeat(t, n - 1), t);
      assert Admitted(c, ts) + Repeat(t, n - 1) + [t] == Admitted(c, ts) + Repeat(t, n);
    }
  }

  /** A burst that fills a whole window at one instant and then trips the block. */
  function Burst(c: Config, t: int): seq<int> {
    Repeat(t, PerWindow(c)) + [t]
  }

  lemma RestartAdmits(c: Config, ts: seq<int>, t: int)
    requires Restarts(c, ts, t)
    ensures var p := EntryAfter(c, ts + [t]);
            p.Some? && !p.value.blocked && p.value.firstSeen == t && p.value.count == 1
    ensures Admitted(c, ts + [t]) == Admitted(c, ts) + [t]
  {
    assert (ts + [t])[..|ts|] == ts;
  }

  lemma FullWindowBlocks(c: Config, ts: seq<int>, t: int)
    requires EntryAfter(c, ts).Some? && !EntryAfter(c, ts).value.blocked
    requires t - EntryAfter(c, ts).value.firstSeen <= c.window
    requires EntryAfter(c, ts).value.count == PerWindow(c)
    ensures var p := EntryAfter(c, ts + [t]);
            p.Some? && p.value.blocked && BlockTime(p.value) == t
    ensures Admitted(c, ts + [t]) == Admitted(c, ts)
  {
    assert (ts + [t])[..|ts|] == ts;
  }

  lemma RepeatCons(s: seq<int>, t: int, n: nat)
    requires n > 0
    ensures s + [t] + Repeat(t, n - 1) == s + Repeat(t, n)
  {
  }

  lemma BurstShape(c: Config, ts: seq<int>, t: int)
    ensures ts + Burst(c, t) == (ts + [t]) + Repeat(t, PerWindow(c) - 1) + [t]
  {
    RepeatCons(ts, t, PerWindow(c));
    assert ts + Burst(c, t) == (ts + Repeat(t, PerWindow(c))) + [t];
  }

  lemma BurstFillsWindow(c: Config, ts: seq<int>, t: int)
    requires c.window > 0 && Restarts(c, ts, t)
    ensures Admitted(c, ts + Burst(c, t)) == Admitted(c, ts) + Repeat(t, PerWindow(c))
    ensures var p := EntryAfter(c, ts + Burst(c, t));
            p.Some? && p.value.blocked && BlockTime(p.value) == t
  {
    var n := PerWindow(c);
    var first := ts + [t];
    RestartAdmits(c, ts, t);
    Fill(c, first, t, n - 1);
    FullWindowBlocks(c, first + Repeat(t, n - 1), t);
    BurstShape(c, ts, t);
    RepeatCons(Admitted(c, ts), t, n);
  }

  ghost predicate SortedUpTo(s: seq<int>, t: int) {
    Sorted(s) && forall i :: 0 <= i < |s| ==> s[i] <= t
  }

  lemma {:induction false} AllCounted(t: int, n: nat, p: int -> bool)
    requires p(t)
    ensures Count(Repeat(t, n), p) == n
  {
    if n > 0 {
      AllCounted(t, n - 1, p);
      RepeatSnoc([], t, n);
      FilterSnoc(Repeat(t, n - 1), t, p);
    }
  }

  lemma Grows(c: Config, s: seq<int>, t: int, n: nat, from: int)
    requires from <= t < from + c.window
    ensures Count(s + Repeat(t, n), Within(c, from)) == Count(s, Within(c, from)) + n
  {
    FilterConcat(s, Repeat(t, n), Within(c, from));
    AllCounted(t, n, Within(c, from));
  }

  /** One more burst, at a time when the window restarts, adds a whole window's admissions. */
  lemma BurstGrows(c: Config, ts: seq<int>, t: int, from: int, next: int)
    requires c.window > 0 && Restarts(c, ts, t) && from <= t < from + c.window && SortedUpTo(ts, t)
    ensures var us := ts + Burst(c, t);
            SortedUpTo(us, t)
            && Count(Admitted(c, us), Within(c, from)) == Count(Admitted(c, ts), Within(c, from)) + PerWindow(c)
            && (next - t >= c.blockDuration ==> Restarts(c, us, next))
  {
    hide EntryAfter, Admitted, Filter, Within, BlockTime;
    BurstFillsWindow(c, ts, t);
    Grows(c, Admitted(c, ts), t, PerWindow(c), from);
  }

  /** Blocks shorter than half the window: three bursts fit into one interval. */
  lemma ShortBlocksBreakTheBound(c: Config) returns (ts: seq<int>, from: int)
    requires c.window > 0 && 2 * c.blockDuration < c.window
    ensures Sorted(ts)
    ensures Count(Admitted(c, ts), Within(c, from)) > 2 * PerWindow(c)
  {
    var d := Max(0, c.blockDuration);
    from := 0;
    BurstGrows(c, [], 0, 0, d);
    var one := [] + Burst(c, 0);
    BurstGrows(c, one, d, 0, 2 * d);
    var two := one + Burst(c, d);
    BurstGrows(c, two, 2 * d, 0, 2 * d);
    ts := two + Burst(c, 2 * d);
  }

  lemma EmptyRestarts(c: Config, t: int)
    ensures Restarts(c, [], t) && Admitted(c, []) == []
  {
  }

  /** One request, and the rest of its window's quota at the last instant of the window. */
  lemma LateFirstWindow(c: Config) returns (ts: seq<int>)
    requires c.window > 0 && c.threshold >= 2
    ensures SortedUpTo(ts, c.window)
    ensures Count(Admitted(c, ts), Within(c, c.window)) >= c.threshold - 1
    ensures Restarts(c, ts, c.window + 1)
  {
    hide EntryAfter, Admitted, Count, Handle;
    EmptyRestarts(c, 0);
    RestartAdmits(c, [], 0);
    var first := [] + [0];
    Fill(c, first, c.window, c.threshold - 1);
    Grows(c, Admitted(c, first), c.window, c.threshold - 1, c.window);
    ts := first + Repeat(c.window, c.threshold - 1);
  }

  /** Blocks that end at least two ticks before a window would: a late first window, a full second one
      and a full third one fit into one interval. */
  lemma LateFirstWindowBreaksTheBound(c: Config) returns (ts: seq<int>, from: int)
    requires c.window > 0 && c.threshold >= 2 && 0 < c.blockDuration < c.window - 1
    ensures Sorted(ts)
    ensures Count(Admitted(c, ts), Within(c, from)) > 2 * PerWindow(c)
  {
    from := c.window;
    var t := c.window + 1;
    var u := t + c.blockDuration;
    var late := LateFirstWindow(c);
    BurstGrows(c, late, t, from, u);
    var second := late + Burst(c, t);
    BurstGrows(c, second, u, from, u);
    ts := second + Burst(c, u);
  }

  ghost predicate BoundedForAllRuns(c: Config) {
    forall ts: seq<int>, from: int :: Sorted(ts) ==> Count(Admitted(c, ts), Within(c, from)) <= 2 * PerWindow(c)
  }

  /** The exact condition: the two-window bound holds in every run iff the timings are safe. */
  lemma BoundHoldsIffSafeTimings(c: Config)
    ensures BoundedForAllRuns(c) <==> SafeTimings(c)
  {
    if SafeTimings(c) {
      forall ts: seq<int>, from: int | Sorted(ts)
        ensures Count(Admitted(c, ts), Within(c, from)) <= 2 * PerWindow(c)
      {
        BoundHolds(c, ts, from);
      }
    } else {
      var ts, from;
      if 2 * c.blockDuration < c.window {
        ts, from := ShortBlocksBreakTheBound(c);
      } else {
        ts, from := LateFirstWindowBreaksTheBound(c);
      }
    }
  }

  // ---- The exact maximum ----

  /** A run that reaches it. */
  lemma MostIsReached(c: Config) returns (ts: seq<int>, from: int)
    requires SafeTimings(c)
    ensures Sorted(ts) && Count(Admitted(c, ts), Within(c, from)) == Most(c)
  {
    hide Admitted, EntryAfter, Count;
    EmptyRestarts(c, 0);
    if c.window <= 0 {
      ts, from := [], 0;
      NoneCounted([], Within(c, from));
    } else if c.blockDuration >= c.window && c.window > 1 && c.threshold >= 2 {
      from := c.window;
      var late := LateFirstWindow(c);
      BurstGrows(c, late, c.window + 1, from, c.window + 1);
      ts := late + Burst(c, c.window + 1);
      BoundHolds(c, ts, from);
    } else {
      from := 0;
      NoneCounted([], Within(c, from));
      BurstGrows(c, [], 0, from, c.blockDuration);
      ts := [] + Burst(c, 0);
      if c.blockDuration < c.window {
        BurstGrows(c, ts, c.blockDuration, from, c.blockDuration);
        ts := ts + Burst(c, c.blockDuration);
      }
    }
  }

  ghost predicate BoundedBy(c: Config, k: int) {
    forall ts: seq<int>, from: int :: Sorted(ts) ==> Count(Admitted(c, ts), Within(c, from)) <= k
  }

  /** With safe timings, `Most` is the exact maximum over all runs and intervals. */
  lemma MostIsExact(c: Config, k: int)
    requires SafeTimings(c)
    ensures BoundedBy(c, k) <==> k >= Most(c)
  {
    hide Admitted, Count, Sorted, Most, SafeTimings;
    var ts, from := MostIsReached(c);
    if k >= Most(c) {
      forall ts: seq<int>, from: int | Sorted(ts) ensures Count(Admitted(c, ts), Within(c, from)) <= k {
        BoundHolds(c, ts, from);
      }
    }
  }

  // ---- Whole runs, with every address and the sweeper ----

  function AnsweredNext(ip: string): Answer -> bool {
    (a: Answer) => a.ip == ip && a.verdict == Next
  }

  function TimesPassed(as_: seq<Answer>): seq<int> {
    seq(|as_|, i requires 0 <= i < |as_| => as_[i].now)
  }

  lemma PassedSnoc(as_: seq<Answer>, a: Answer)
    ensures TimesPassed(as_ + [a]) == TimesPassed(as_) + [a.now]
  {
  }

  lemma AdmittedSnoc(c: Config, ts: seq<int>, t: int)
    ensures Admitted(c, ts + [t])
            == Admitted(c, ts) + if Handle(c, EntryAfter(c, ts), t).1 == Next then [t] else []
  {
    assert (ts + [t])[..|ts|] == ts;
  }

  lemma NothingPassed(c: Config, ip: string)
    ensures TimesPassed(Filter(Answers(c, []), AnsweredNext(ip))) == Admitted(c, TimesOf([], ip))
  {
  }

  lemma {:induction false} PassedAreAdmitted(c: Config, es: seq<Event>, ip: string)
    requires forall e :: e in es ==> e.Request?
    ensures TimesPassed(Filter(Answers(c, es), AnsweredNext(ip))) == Admitted(c, TimesOf(es, ip))
  {
    hide Filter, TimesPassed, Admitted, Handle, Run, Lookup, EntryAfter;
    if es == [] {
      NothingPassed(c, ip);
    } else {
      var init, e := es[..|es| - 1], es[|es| - 1];
      assert e in es;
      PassedAreAdmitted(c, init, ip);
      AddressesAreIsolated(c, init, e.ip);
      var passed, ts, verdict := Filter(Answers(c, init), AnsweredNext(ip)), TimesOf(init, ip),
                                 Handle(c, Lookup(Run(c, init), e.ip), e.now).1;
      FilterSnoc(Answers(c, init), Answer(e.ip, e.now, verdict), AnsweredNext(ip));
      PassedSnoc(passed, Answer(e.ip, e.now, verdict));
      AdmittedSnoc(c, ts, e.now);
      assert passed + [] == passed && ts + [] == ts && Admitted(c, ts) + [] == Admitted(c, ts);
    }
  }

  /** In every run of requests from any addresses and sweeps at any times, each address gets at most
      `Most` requests through in every half-open interval of length `window`. */
  lemma AtMostTwoWindowsPassed(c: Config, es: seq<Event>, ip: string, from: int)
    requires SafeTimings(c) && Monotone(es)
    ensures Count(TimesPassed(Filter(Answers(c, es), AnsweredNext(ip))), Within(c, from)) <= Most(c) <= 2 * PerWindow(c)
  {
    var requests := Filter(es, IsRequest());
    SweeperIsInvisible(c, es);
    FilterMembers(es, IsRequest());
    var clock := if es == [] then 0 else es[|es| - 1].now;
    RequestsStayMonotone(es, clock);
    PassedAreAdmitted(c, requests, ip);
    assert requests != [] ==> requests[|requests| - 1] in requests;
    TimesAreSorted(requests, ip, clock);
    BoundHolds(c, TimesOf(requests, ip), from);
  }
}
