/** Request metrics: a bounded buffer of samples, its order statistics, and its totals by route. */
module RequestMetrics {
  import opened Sequences
  import opened Grouping

  /** Durations are whole nanoseconds, as they are measured. */
  datatype Sample = Sample(verb: string, route: string, statusCode: int, duration: nat, timestamp: int)

  const MAX_METRICS := 5000

  /** The part of a history that the buffer keeps. */
  function Latest(history: seq<Sample>): seq<Sample> {
    if |history| <= MAX_METRICS then history else history[|history| - MAX_METRICS..]
  }

  function Duration(): Sample -> real {
    (m: Sample) => m.duration as real
  }

  function IsError(): Sample -> bool {
    (m: Sample) => m.statusCode >= 500
  }

  function ErrorUnit(): Sample -> real {
    (m: Sample) => if m.statusCode >= 500 then 1.0 else 0.0
  }

  // ---- Percentiles ----

  /** The sample at rank `percent` hundredths of the way through the durations in order. */
  function Percentile(store: seq<Sample>, percent: nat): nat
    requires store != [] && percent < 100
  {
    RankInRange(|store|, percent);
    SortBy(store, Duration())[|store| * percent / 100].duration
  }

  lemma RankInRange(n: nat, percent: nat)
    requires n > 0 && percent < 100
    ensures 0 <= n * percent / 100 < n
  {
    assert n * percent <= n * 99;
  }

  lemma PercentileIs(store: seq<Sample>, percent: nat)
    requires store != [] && percent < 100
    ensures 0 <= |store| * percent / 100 < |store|
    ensures Percentile(store, percent) == SortBy(store, Duration())[|store| * percent / 100].duration
  {
  }

  lemma RankMonotone(n: nat, low: nat, high: nat)
    requires low <= high
    ensures n * low / 100 <= n * high / 100
  {
    assert n * low <= n * high;
  }

  function AtMost(limit: int): Sample -> bool {
    (m: Sample) => m.duration <= limit
  }

  function Below(limit: int): Sample -> bool {
    (m: Sample) => m.duration < limit
  }

  lemma {:induction false} CountRange(s: seq<Sample>, p: Sample -> bool, k: nat)
    requires k <= |s|
    ensures (forall i :: 0 <= i < k ==> p(s[i])) ==> Count(s, p) >= k
    ensures (forall i :: k <= i < |s| ==> !p(s[i])) ==> Count(s, p) <= k
  {
    hide Filter;
    assert s == s[..k] + s[k..];
    FilterConcat(s[..k], s[k..], p);
    if forall i :: 0 <= i < k ==> p(s[i]) {
      AllKept(s[..k], p);
    }
    if forall i :: k <= i < |s| ==> !p(s[i]) {
      NoneCounted(s[k..], p);
    }
  }

  /** Strictly more than `percent` hundredths of the samples took at most the percentile, and at most that
      many took less; so the percentile of a higher rank is at least as long. */
  lemma PercentileSplits(store: seq<Sample>, percent: nat)
    requires store != [] && percent < 100
    ensures Count(store, AtMost(Percentile(store, percent))) * 100 > |store| * percent
    ensures Count(store, Below(Percentile(store, percent))) * 100 <= |store| * percent
    ensures exists m :: m in store && m.duration == Percentile(store, percent)
  {
    hide SortBy, Count;
    var sorted := SortBy(store, Duration());
    var k := |store| * percent / 100;
    RankInRange(|store|, percent);
    var limit := sorted[k].duration;
    SortSorted(store, Duration());
    forall i | 0 <= i < |sorted|
      ensures (i <= k ==> sorted[i].duration <= limit) && (i >= k ==> sorted[i].duration >= limit)
    {
      assert Duration()(sorted[i]) == sorted[i].duration as real && Duration()(sorted[k]) == limit as real;
    }
    SortCount(store, Duration(), AtMost(limit));
    SortCount(store, Duration(), Below(limit));
    CountRange(sorted, AtMost(limit), k + 1);
    CountRange(sorted, Below(limit), k);
    SortMember(store, Duration(), sorted[k]);
    assert sorted[k] in sorted;
  }

  lemma PercentilesOrdered(store: seq<Sample>, low: nat, high: nat)
    requires store != [] && low <= high < 100
    ensures Percentile(store, low) <= Percentile(store, high)
  {
    hide SortBy;
    var sorted := SortBy(store, Duration());
    SortSorted(store, Duration());
    RankInRange(|store|, low);
    RankInRange(|store|, high);
    RankMonotone(|store|, low, high);
    var i, j := |store| * low / 100, |store| * high / 100;
    assert Duration()(sorted[i]) == sorted[i].duration as real && Duration()(sorted[j]) == sorted[j].duration as real;
  }

  // ---- Routes ----

  /** The name of a route: its method, a space, its path. */
  function RouteOf(): Sample -> string {
    (m: Sample) => m.verb + " " + m.route
  }

  datatype Stats = Stats(count: real, totalDuration: real, errors: real)

  function CountIn(): Stats -> real {
    (s: Stats) => s.count
  }

  function DurationIn(): Stats -> real {
    (s: Stats) => s.totalDuration
  }

  function ErrorsIn(): Stats -> real {
    (s: Stats) => s.errors
  }

  lemma FirstSpace(m: Sample)
    requires ' ' !in m.verb
    ensures var name := RouteOf()(m);
            && |name| == |m.verb| + 1 + |m.route|
            && (forall i :: 0 <= i < |m.verb| ==> name[i] == m.verb[i] && name[i] != ' ')
            && name[|m.verb|] == ' ' && name[|m.verb| + 1..] == m.route
  {
    forall i | 0 <= i < |m.verb| ensures m.verb[i] != ' ' {
      assert m.verb[i] in m.verb;
    }
  }

  /** As methods hold no space, samples share a name iff they share the method and the route. */
  lemma RoutesAreDistinct(a: Sample, b: Sample)
    requires ' ' !in a.verb && ' ' !in b.verb
    ensures RouteOf()(a) == RouteOf()(b) <==> a.verb == b.verb && a.route == b.route
  {
    var x, y := RouteOf()(a), RouteOf()(b);
    FirstSpace(a);
    FirstSpace(b);
    hide RouteOf;
    if x == y {
      assert |a.verb| == |b.verb|;
      assert a.verb == b.verb;
    } else if a.verb == b.verb && a.route == b.route {
      SameName(a, b);
    }
  }

  lemma SameName(a: Sample, b: Sample)
    requires a.verb == b.verb && a.route == b.route
    ensures RouteOf()(a) == RouteOf()(b)
  {
  }

  /** Each route seen in the buffer, once, with the number, the total duration and the errors of exactly
      its own samples. */
  ghost predicate ByRoute(store: seq<Sample>, routes: seq<string>, stats: map<string, Stats>) {
    && Keyed(store, RouteOf(), routes, stats)
    && Totals(store, RouteOf(), One(), stats, CountIn())
    && Totals(store, RouteOf(), Duration(), stats, DurationIn())
    && Totals(store, RouteOf(), ErrorUnit(), stats, ErrorsIn())
  }

  lemma ByRouteStep(store: seq<Sample>, m: Sample, routes: seq<string>, stats: map<string, Stats>, s: Stats)
    requires ByRoute(store, routes, stats)
    requires var e := if RouteOf()(m) in stats then stats[RouteOf()(m)] else Stats(0.0, 0.0, 0.0);
             s == Stats(e.count + 1.0, e.totalDuration + m.duration as real, e.errors + ErrorUnit()(m))
    ensures ByRoute(store + [m], if RouteOf()(m) in stats then routes else routes + [RouteOf()(m)],
                    stats[RouteOf()(m) := s])
  {
    hide Keyed, Totals;
    KeyedStep(store, m, RouteOf(), routes, stats, s);
    TotalsStep(store, m, RouteOf(), routes, stats, One(), CountIn(), s);
    TotalsStep(store, m, RouteOf(), routes, stats, Duration(), DurationIn(), s);
    TotalsStep(store, m, RouteOf(), routes, stats, ErrorUnit(), ErrorsIn(), s);
  }

  lemma NoRoutes()
    ensures ByRoute([], [], map[])
  {
  }

  lemma {:induction false} ErrorsAreCounted(store: seq<Sample>)
    ensures Sum(store, ErrorUnit()) == |Filter(store, IsError())| as real
  {
    if store != [] {
      ErrorsAreCounted(store[..|store| - 1]);
    }
  }

  function StatOf(stats: map<string, Stats>, read: Stats -> real): string -> real {
    (r: string) => if r in stats then read(stats[r]) else 0.0
  }

  lemma StatsAddUp(store: seq<Sample>, routes: seq<string>, stats: map<string, Stats>,
                   value: Sample -> real, read: Stats -> real)
    requires Keyed(store, RouteOf(), routes, stats) && Totals(store, RouteOf(), value, stats, read)
    ensures Sum(routes, StatOf(stats, read)) == Sum(store, value)
  {
    hide Sum, GroupSum;
    forall r | r in routes ensures StatOf(stats, read)(r) == GroupSums(store, RouteOf(), value)(r) {
    }
    SumAgree(routes, StatOf(stats, read), GroupSums(store, RouteOf(), value));
    TotalsConserve(store, RouteOf(), routes, stats, value);
  }

  /** The routes' counts, durations and errors add up to those of the whole buffer. */
  lemma RoutesConserve(store: seq<Sample>, routes: seq<string>, stats: map<string, Stats>)
    requires ByRoute(store, routes, stats)
    ensures Sum(routes, StatOf(stats, CountIn())) == |store| as real
    ensures Sum(routes, StatOf(stats, DurationIn())) == Sum(store, Duration())
    ensures Sum(routes, StatOf(stats, ErrorsIn())) == |Filter(store, IsError())| as real
  {
    hide Sum, Filter, Keyed, Totals, StatOf;
    StatsAddUp(store, routes, stats, One(), CountIn());
    StatsAddUp(store, routes, stats, Duration(), DurationIn());
    StatsAddUp(store, routes, stats, ErrorUnit(), ErrorsIn());
    SumOfOnes(store);
    ErrorsAreCounted(store);
  }

  // ---- Reported figures ----

  /** toFixed(2) of section 21.1.3.3 of ECMA-262, for a figure that is not negative, in hundredths: the
      nearest, and of two as near the larger. */
  function Hundredths(x: real): (h: int)
    ensures h as real - 0.5 <= x * 100.0 < h as real + 0.5
  {
    (x * 100.0 + 0.5).Floor
  }

  /** `h` is the number of hundredths nearest to 100 times the quotient, without dividing. */
  ghost predicate Rounds(h: int, num: real, den: real) {
    (h as real - 0.5) * den <= num * 100.0 < (h as real + 0.5) * den
  }

  lemma HundredthsRound(num: real, den: real)
    requires den > 0.0
    ensures Rounds(Hundredths(num / den), num, den)
  {
    var q, h := num / den, Hundredths(num / den) as real;
    assert q * den == num;
    Scaled(h - 0.5, q * 100.0, den);
    ScaledStrictly(q * 100.0, h + 0.5, den);
    assert q * 100.0 * den == num * 100.0;
  }

  lemma Scaled(x: real, y: real, d: real)
    requires x <= y && d > 0.0
    ensures x * d <= y * d
  {
    assert (y - x) * d >= 0.0;
  }

  lemma ScaledStrictly(x: real, y: real, d: real)
    requires x < y && d > 0.0
    ensures x * d < y * d
  {
    assert (y - x) * d > 0.0;
  }

  const MILLISECOND := 1000000.0

  lemma PerMillisecond(num: real, n: real)
    requires n > 0.0
    ensures num / n / MILLISECOND == num / (n * MILLISECOND)
  {
    var a, b := num / n, num / (n * MILLISECOND);
    assert a * n == num && b * (n * MILLISECOND) == num;
    var c := b * MILLISECOND;
    assert c * n == num;
    assert (a - c) * n == 0.0;
    if a != c {
      NonZero(a - c, n);
    }
  }

  lemma NonZero(x: real, n: real)
    requires x != 0.0 && n > 0.0
    ensures x * n != 0.0
  {
    if x > 0.0 {
      ScaledStrictly(0.0, x, n);
    } else {
      ScaledStrictly(x, 0.0, n);
    }
  }

  lemma Percentage(part: real, n: real)
    requires n > 0.0
    ensures part / n * 100.0 == part * 100.0 / n
  {
    var a, b := part / n, part * 100.0 / n;
    assert a * n == part && b * n == part * 100.0;
    assert (a * 100.0 - b) * n == 0.0;
    if a * 100.0 != b {
      NonZero(a * 100.0 - b, n);
    }
  }

  /** All durations in milliseconds and all rates in percent, in hundredths. */
  datatype Report = Report(count: nat, avgDuration: int, p95: int, p99: int, errorRate: int, throughput: nat)

  datatype RouteMetric = RouteMetric(route: string, count: nat, avgDuration: int, errorRate: int)

  function Since(time: int): Sample -> bool {
    (m: Sample) => m.timestamp > time
  }

  /** The average duration and the error rate of these samples, rounded. */
  ghost predicate Figures(own: seq<Sample>, avgDuration: int, errorRate: int) {
    && Rounds(avgDuration, Sum(own, Duration()), |own| as real * MILLISECOND)
    && Rounds(errorRate, Count(own, IsError()) as real * 100.0, |own| as real)
  }

  lemma FiguresAre(own: seq<Sample>, total: real, errors: real, n: real)
    requires own != [] && total == Sum(own, Duration()) && errors == Count(own, IsError()) as real && n == |own| as real
    ensures Figures(own, Hundredths(total / n / MILLISECOND), Hundredths(errors / n * 100.0))
  {
    hide Count, Sum, Hundredths, Rounds;
    AverageRounds(total, n);
    PercentageRounds(errors, n);
  }

  lemma AverageRounds(total: real, n: real)
    requires n > 0.0
    ensures Rounds(Hundredths(total / n / MILLISECOND), total, n * MILLISECOND)
  {
    hide Rounds, Hundredths;
    PerMillisecond(total, n);
    HundredthsRound(total, n * MILLISECOND);
  }

  lemma PercentageRounds(part: real, n: real)
    requires n > 0.0
    ensures Rounds(Hundredths(part / n * 100.0), part * 100.0, n)
  {
    hide Rounds, Hundredths;
    Percentage(part, n);
    HundredthsRound(part * 100.0, n);
  }

  function OwnSamples(store: seq<Sample>, route: string): seq<Sample> {
    Filter(store, HasKey(RouteOf(), route))
  }

  /** One row: the figures of exactly the route's own samples. */
  ghost predicate IsRow(store: seq<Sample>, row: RouteMetric) {
    var own := OwnSamples(store, row.route);
    own != [] && row.count == |own| && Figures(own, row.avgDuration, row.errorRate)
  }

  function ForRoute(route: string): RouteMetric -> bool {
    (row: RouteMetric) => row.route == route
  }

  function Slowness(): RouteMetric -> real {
    (row: RouteMetric) => -(row.avgDuration as real)
  }

  function RowCount(): RouteMetric -> real {
    (row: RouteMetric) => row.count as real
  }

  /** One row for each route seen and no other, each with its own figures, and the counts make up the buffer. */
  ghost predicate Complete(store: seq<Sample>, rows: seq<RouteMetric>) {
    && (forall row :: row in rows ==> IsRow(store, row))
    && (forall route ::
          Count(rows, ForRoute(route)) == if exists m :: m in store && RouteOf()(m) == route then 1 else 0)
    && Sum(rows, RowCount()) == |store| as real
  }

  lemma StatsGiveRow(store: seq<Sample>, routes: seq<string>, stats: map<string, Stats>, route: string)
    requires ByRoute(store, routes, stats) && route in stats
    ensures var s, own := stats[route], OwnSamples(store, route);
            && own != [] && s.count == |own| as real && s.count.Floor == |own|
            && s.totalDuration == Sum(own, Duration()) && s.errors == Count(own, IsError()) as real
  {
    var own := OwnSamples(store, route);
    var x :| x in store && RouteOf()(x) == route;
    FilterMembers(store, HasKey(RouteOf(), route));
    assert x in own;
    assert CountIn()(stats[route]) == Sum(own, One()) && DurationIn()(stats[route]) == Sum(own, Duration())
           && ErrorsIn()(stats[route]) == Sum(own, ErrorUnit());
    SumOfOnes(own);
    ErrorsAreCounted(own);
  }

  /** The rows made so far, for the first `n` routes. */
  ghost predicate RowsFor(store: seq<Sample>, routes: seq<string>, rows: seq<RouteMetric>, n: nat) {
    && |rows| == n <= |routes|
    && forall i :: 0 <= i < n ==> rows[i].route == routes[i] && IsRow(store, rows[i])
  }

  lemma {:induction false} OneRowEach(store: seq<Sample>, routes: seq<string>, rows: seq<RouteMetric>, n: nat,
                                      route: string)
    requires RowsFor(store, routes, rows, n) && Distinct(routes)
    ensures Count(rows, ForRoute(route)) == if route in routes[..n] then 1 else 0
  {
    if n > 0 {
      hide IsRow, Filter;
      var init, last := rows[..n - 1], rows[n - 1];
      assert rows == init + [last];
      OneRowEach(store, routes, init, n - 1, route);
      CountSnoc(init, last, ForRoute(route));
      assert routes[..n] == routes[..n - 1] + [routes[n - 1]];
    }
  }

  lemma RowCounts(store: seq<Sample>, row: RouteMetric)
    requires IsRow(store, row)
    ensures RowCount()(row) == GroupSums(store, RouteOf(), One())(row.route)
  {
    hide Filter, Figures, Sum;
    SumOfOnes(OwnSamples(store, row.route));
  }

  lemma {:induction false} RowsCount(store: seq<Sample>, routes: seq<string>, rows: seq<RouteMetric>, n: nat)
    requires RowsFor(store, routes, rows, n)
    ensures Sum(rows, RowCount()) == Sum(routes[..n], GroupSums(store, RouteOf(), One()))
  {
    if n > 0 {
      hide IsRow, GroupSums, RowCount, Sum;
      var init, last, before, route := rows[..n - 1], rows[n - 1], routes[..n - 1], routes[n - 1];
      assert rows == init + [last] && routes[..n] == before + [route];
      RowsCount(store, routes, init, n - 1);
      RowCounts(store, last);
      SumSnoc(init, last, RowCount());
      SumSnoc(before, route, GroupSums(store, RouteOf(), One()));
    }
  }

  lemma AllRows(store: seq<Sample>, routes: seq<string>, stats: map<string, Stats>, rows: seq<RouteMetric>)
    requires ByRoute(store, routes, stats) && RowsFor(store, routes, rows, |routes|)
    ensures Complete(store, rows)
  {
    hide IsRow, Sum, GroupSums, Totals, Count;
    assert routes[..|routes|] == routes;
    forall route ensures Count(rows, ForRoute(route))
                         == if exists m :: m in store && RouteOf()(m) == route then 1 else 0 {
      OneRowEach(store, routes, rows, |routes|, route);
    }
    RowsCount(store, routes, rows, |routes|);
    TotalsConserve(store, RouteOf(), routes, stats, One());
    SumOfOnes(store);
  }

  lemma SortedStaysComplete(store: seq<Sample>, rows: seq<RouteMetric>)
    requires Complete(store, rows)
    ensures Complete(store, SortBy(rows, Slowness()))
    ensures SortedBy(SortBy(rows, Slowness()), Slowness())
  {
    hide SortBy, IsRow, Count, Sum, SortedBy;
    forall row | row in SortBy(rows, Slowness()) ensures IsRow(store, row) {
      SortMember(rows, Slowness(), row);
    }
    forall route ensures Count(SortBy(rows, Slowness()), ForRoute(route)) == Count(rows, ForRoute(route)) {
      SortCount(rows, Slowness(), ForRoute(route));
    }
    SortSum(rows, Slowness(), RowCount());
    SortSorted(rows, Slowness());
  }

  // ---- The figures on the samples themselves ----

  /** The sample counts towards this route, or towards the whole. */
  predicate Under(m: Sample, name: Option<string>) {
    name.None? || name.value == m.verb + " " + m.route
  }

  ghost function SamplesUnder(s: seq<Sample>, name: Option<string>): set<int> {
    set i | 0 <= i < |s| && Under(s[i], name)
  }

  ghost function ErrorsUnder(s: seq<Sample>, name: Option<string>): set<int> {
    set i | 0 <= i < |s| && Under(s[i], name) && s[i].statusCode >= 500
  }

  function NanosUnder(s: seq<Sample>, name: Option<string>): nat {
    if s == [] then 0
    else NanosUnder(s[..|s| - 1], name) + if Under(s[|s| - 1], name) then s[|s| - 1].duration else 0
  }

  /** `h` hundredths are nearest to the quotient, and of two as near the larger. */
  ghost predicate Nearest(h: int, num: nat, den: nat) {
    (2 * h - 1) * den <= 200 * num < (2 * h + 1) * den
  }

  /** The number of samples, their average in milliseconds and the percentage that failed, in hundredths. */
  ghost predicate HasFigures(s: seq<Sample>, name: Option<string>, count: nat, avgDuration: int, errorRate: int) {
    && count == |SamplesUnder(s, name)| > 0
    && Nearest(avgDuration, NanosUnder(s, name), 1000000 * count)
    && Nearest(errorRate, 100 * |ErrorsUnder(s, name)|, count)
  }

  /** More than `percent` hundredths of the samples take at most `d`, and at most that many take less. */
  ghost predicate IsPercentile(s: seq<Sample>, percent: nat, d: nat) {
    && (exists i :: 0 <= i < |s| && s[i].duration == d)
    && 100 * |set i | 0 <= i < |s| && s[i].duration <= d| > percent * |s|
    && 100 * |set i | 0 <= i < |s| && s[i].duration < d| <= percent * |s|
  }

  function UnderName(name: Option<string>): Sample -> bool {
    (m: Sample) => Under(m, name)
  }

  function ErrorUnder(name: Option<string>): Sample -> bool {
    (m: Sample) => Under(m, name) && m.statusCode >= 500
  }

  lemma CountsUnder(s: seq<Sample>, name: Option<string>)
    ensures |Filter(s, UnderName(name))| == |SamplesUnder(s, name)|
    ensures Count(Filter(s, UnderName(name)), IsError()) == |ErrorsUnder(s, name)|
  {
    CountIsPositions(s, UnderName(name));
    CountIsPositions(s, ErrorUnder(name));
    FilterBoth(s, UnderName(name), IsError(), ErrorUnder(name));
    hide Filter, Under;
    assert Positions(s, UnderName(name)) == SamplesUnder(s, name);
    assert Positions(s, ErrorUnder(name)) == ErrorsUnder(s, name);
  }

  lemma {:induction false} SumUnder(s: seq<Sample>, name: Option<string>)
    ensures Sum(Filter(s, UnderName(name)), Duration()) == NanosUnder(s, name) as real
  {
    hide Filter, Sum, NanosUnder, Under;
    if s == [] {
      NothingUnder(name);
    } else {
      var init, last := s[..|s| - 1], s[|s| - 1];
      assert s == init + [last];
      SumUnder(init, name);
      NanosSnoc(s, name);
      FilterSnoc(init, last, UnderName(name));
      if Under(last, name) {
        SumSnoc(Filter(init, UnderName(name)), last, Duration());
      } else {
        assert Filter(init, UnderName(name)) + [] == Filter(init, UnderName(name));
      }
    }
  }

  lemma NothingUnder(name: Option<string>)
    ensures Sum(Filter([], UnderName(name)), Duration()) == 0.0 && NanosUnder([], name) == 0
  {
  }

  lemma NanosSnoc(s: seq<Sample>, name: Option<string>)
    requires s != []
    ensures NanosUnder(s, name)
            == NanosUnder(s[..|s| - 1], name) + if Under(s[|s| - 1], name) then s[|s| - 1].duration else 0
  {
    hide Under;
  }

  lemma RoundsIsNearest(h: int, num: nat, den: nat)
    requires Rounds(h, num as real, den as real)
    ensures Nearest(h, num, den)
  {
    assert ((2 * h - 1) * den) as real == (2 * h - 1) as real * den as real;
    assert ((2 * h + 1) * den) as real == (2 * h + 1) as real * den as real;
  }

  lemma FiguresUnder(s: seq<Sample>, name: Option<string>, own: seq<Sample>, avgDuration: int, errorRate: int)
    requires own == Filter(s, UnderName(name)) && own != [] && Figures(own, avgDuration, errorRate)
    ensures HasFigures(s, name, |own|, avgDuration, errorRate)
  {
    hide Filter, Count, Sum, Rounds, Nearest, Under;
    CountsUnder(s, name);
    SumUnder(s, name);
    RoundsIsNearest(avgDuration, NanosUnder(s, name), 1000000 * |own|);
    RoundsIsNearest(errorRate, 100 * |ErrorsUnder(s, name)|, |own|);
  }

  lemma RowHasFigures(store: seq<Sample>, row: RouteMetric)
    requires IsRow(store, row)
    ensures HasFigures(store, Some(row.route), row.count, row.avgDuration, row.errorRate)
  {
    FilterAgree(store, HasKey(RouteOf(), row.route), UnderName(Some(row.route)));
    hide Filter, Figures, HasFigures;
    FiguresUnder(store, Some(row.route), OwnSamples(store, row.route), row.avgDuration, row.errorRate);
  }

  lemma WholeHasFigures(store: seq<Sample>, avgDuration: int, errorRate: int)
    requires store != [] && Figures(store, avgDuration, errorRate)
    ensures HasFigures(store, None, |store|, avgDuration, errorRate)
  {
    AllKept(store, UnderName(None));
    hide Filter, Figures, HasFigures;
    FiguresUnder(store, None, store, avgDuration, errorRate);
  }

  lemma PercentileIsOne(s: seq<Sample>, percent: nat)
    requires s != [] && percent < 100
    ensures IsPercentile(s, percent, Percentile(s, percent))
  {
    hide Percentile, Count;
    var d := Percentile(s, percent);
    PercentileSplits(s, percent);
    CountIsPositions(s, AtMost(d));
    CountIsPositions(s, Below(d));
    assert Positions(s, AtMost(d)) == set i | 0 <= i < |s| && s[i].duration <= d;
    assert Positions(s, Below(d)) == set i | 0 <= i < |s| && s[i].duration < d;
  }

  lemma SinceIs(s: seq<Sample>, time: int)
    ensures Count(s, Since(time)) == |set i | 0 <= i < |s| && s[i].timestamp > time|
  {
    CountIsPositions(s, Since(time));
    hide Count;
    assert Positions(s, Since(time)) == set i | 0 <= i < |s| && s[i].timestamp > time;
  }

  // ---- The store ----

  class Metrics {
    var metricsStore: seq<Sample>
    ghost var history: seq<Sample>

    ghost predicate Valid()
      reads this
    {
      metricsStore == Latest(history)
    }

    constructor ()
      ensures Valid() && history == []
    {
      metricsStore, history := [], [];
    }

    method Record(m: Sample)
      requires Valid()
      modifies this
      ensures Valid() && history == old(history) + [m]
      ensures metricsStore == if |history| <= 5000 then history else history[|history| - 5000..]
    {
      metricsStore := metricsStore + [m];
      if |metricsStore| > MAX_METRICS {
        metricsStore := metricsStore[1..];
      }
      history := history + [m];
    }

    method GetRequestMetrics(now: int) returns (r: Report)
      requires Valid()
      ensures var s := metricsStore;
              && r.throughput == |set i | 0 <= i < |s| && s[i].timestamp > now - 60000|
              && (s == [] ==> r == Report(0, 0, 0, 0, 0, 0))
              && (s != [] ==>
                    && HasFigures(s, None, r.count, r.avgDuration, r.errorRate) && r.p95 <= r.p99
                    && (exists d: nat :: IsPercentile(s, 95, d) && Nearest(r.p95, d, 1000000))
                    && (exists d: nat :: IsPercentile(s, 99, d) && Nearest(r.p99, d, 1000000)))
    {
      SinceIs(metricsStore, now - 60000);
      hide SortBy, Count, Sum, Percentile, HasFigures, IsPercentile, Nearest;
      var n := |metricsStore|;
      if n == 0 {
        NoneCounted(metricsStore, Since(now - 60000));
        return Report(0, 0, 0, 0, 0, 0);
      }
      var durations := SortBy(metricsStore, Duration());
      var errors := Count(metricsStore, IsError());
      var recentRequests := Count(metricsStore, Since(now - 60000));
      var p95Index, p99Index := n * 95 / 100, n * 99 / 100;
      var total := Sum(metricsStore, Duration());
      FiguresAre(metricsStore, total, errors as real, n as real);
      hide Figures, Rounds;
      PercentileIs(metricsStore, 95);
      PercentileIs(metricsStore, 99);
      PercentileIsOne(metricsStore, 95);
      PercentileIsOne(metricsStore, 99);
      PercentilesOrdered(metricsStore, 95, 99);
      var p95, p99 := durations[p95Index].duration as real, durations[p99Index].duration as real;
      HundredthsRound(p95, MILLISECOND);
      HundredthsRound(p99, MILLISECOND);
      r := Report(n, Hundredths(total / n as real / MILLISECOND), Hundredths(p95 / MILLISECOND),
                  Hundredths(p99 / MILLISECOND), Hundredths(errors as real / n as real * 100.0), recentRequests);
      WholeHasFigures(metricsStore, r.avgDuration, r.errorRate);
      RoundsIsNearest(r.p95, durations[p95Index].duration, 1000000);
      RoundsIsNearest(r.p99, durations[p99Index].duration, 1000000);
    }

    /** The accumulation: routes in the order first seen, and a map from route to totals. */
    method CollectRoutes() returns (routes: seq<string>, stats: map<string, Stats>)
      requires Valid()
      ensures ByRoute(Latest(history), routes, stats)
    {
      hide ByRoute;
      routes, stats := [], map[];
      NoRoutes();
      for i := 0 to |metricsStore|
        invariant ByRoute(metricsStore[..i], routes, stats)
      {
        var metric := metricsStore[i];
        var key := metric.verb + " " + metric.route;
        var existing := if key in stats then stats[key] else Stats(0.0, 0.0, 0.0);
        var s := Stats(existing.count + 1.0, existing.totalDuration + metric.duration as real,
                       if metric.statusCode >= 500 then existing.errors + 1.0 else existing.errors);
        assert metricsStore[..i + 1] == metricsStore[..i] + [metric];
        ByRouteStep(metricsStore[..i], metric, routes, stats, s);
        routes := if key in stats then routes else routes + [key];
        stats := stats[key := s];
      }
      assert metricsStore[..|metricsStore|] == metricsStore;
    }

    /** The slowest routes, by their rounded averages, first. */
    method GetRouteMetrics() returns (rows: seq<RouteMetric>)
      requires Valid()
      ensures Complete(Latest(history), rows)
      ensures forall row :: row in rows ==>
                HasFigures(metricsStore, Some(row.route), row.count, row.avgDuration, row.errorRate)
      ensures forall i, j :: 0 <= i < j < |rows| ==> rows[i].avgDuration >= rows[j].avgDuration
    {
      var routes, stats := CollectRoutes();
      ghost var store := Latest(history);
      RoutesHaveStats(store, routes, stats);
      NoRows(store, routes);
      hide ByRoute, RowsFor, Complete, Latest, RowOf, SortBy;
      rows := [];
      for i := 0 to |routes|
        invariant RowsFor(store, routes, rows, i)
      {
        NextRow(store, routes, stats, rows, i);
        rows := rows + [RowOf(routes[i], stats[routes[i]])];
      }
      AllRows(store, routes, stats, rows);
      SortedStaysComplete(store, rows);
      SlowestFirst(rows);
      rows := SortBy(rows, Slowness());
      CompleteHasFigures(store, rows);
    }
  }

  lemma CompleteHasFigures(store: seq<Sample>, rows: seq<RouteMetric>)
    requires Complete(store, rows)
    ensures forall row :: row in rows ==> HasFigures(store, Some(row.route), row.count, row.avgDuration, row.errorRate)
  {
    hide IsRow, HasFigures, Count, Sum;
    forall row | row in rows
      ensures HasFigures(store, Some(row.route), row.count, row.avgDuration, row.errorRate)
    {
      RowHasFigures(store, row);
    }
  }

  /** The row made of a route's totals. */
  function RowOf(route: string, s: Stats): RouteMetric
    requires s.count > 0.0
  {
    RouteMetric(route, s.count.Floor, Hundredths(s.totalDuration / s.count / MILLISECOND),
                Hundredths(s.errors / s.count * 100.0))
  }

  lemma RoutesHaveStats(store: seq<Sample>, routes: seq<string>, stats: map<string, Stats>)
    requires ByRoute(store, routes, stats)
    ensures forall i :: 0 <= i < |routes| ==> routes[i] in stats && stats[routes[i]].count > 0.0
  {
    forall i | 0 <= i < |routes| ensures routes[i] in stats && stats[routes[i]].count > 0.0 {
      assert routes[i] in routes;
      StatsGiveRow(store, routes, stats, routes[i]);
    }
  }

  lemma NoRows(store: seq<Sample>, routes: seq<string>)
    ensures RowsFor(store, routes, [], 0)
  {
  }

  lemma MakesRow(store: seq<Sample>, routes: seq<string>, stats: map<string, Stats>, route: string)
    requires ByRoute(store, routes, stats) && route in stats && stats[route].count > 0.0
    ensures RowOf(route, stats[route]).route == route && IsRow(store, RowOf(route, stats[route]))
  {
    hide ByRoute, Figures, Count, Filter, Sum, Hundredths, OwnSamples;
    StatsGiveRow(store, routes, stats, route);
    var s, own := stats[route], OwnSamples(store, route);
    FiguresAre(own, s.totalDuration, s.errors, s.count);
  }

  lemma NextRow(store: seq<Sample>, routes: seq<string>, stats: map<string, Stats>, rows: seq<RouteMetric>, i: nat)
    requires ByRoute(store, routes, stats) && RowsFor(store, routes, rows, i) && i < |routes|
    requires routes[i] in stats && stats[routes[i]].count > 0.0
    ensures RowsFor(store, routes, rows + [RowOf(routes[i], stats[routes[i]])], i + 1)
  {
    hide ByRoute, IsRow, RowOf;
    MakesRow(store, routes, stats, routes[i]);
  }

  lemma SlowestFirst(rows: seq<RouteMetric>)
    ensures var sorted := SortBy(rows, Slowness());
            forall i, j :: 0 <= i < j < |sorted| ==> sorted[i].avgDuration >= sorted[j].avgDuration
  {
    var sorted := SortBy(rows, Slowness());
    SortSorted(rows, Slowness());
    forall i, j | 0 <= i < j < |sorted| ensures sorted[i].avgDuration >= sorted[j].avgDuration {
      assert Slowness()(sorted[i]) == -(sorted[i].avgDuration as real)
             && Slowness()(sorted[j]) == -(sorted[j].avgDuration as real);
    }
  }
}
