/** Daily trends of a group: one bucket per day, made by stepping through local midnights and keyed by the
    UTC date. Times are milliseconds of UTC; a UTC date is its day number. */
module GroupTrends {
  import opened Sequences
  import opened Grouping

  const DAY := 86400000

  datatype Contribution = Contribution(group: string, time: int, amount: real)

  datatype Bucket = Bucket(contributions: real, volume: real)

  datatype Day = Day(day: int, contributions: real, volume: real)

  function DayOf(): Contribution -> int {
    (c: Contribution) => c.time / DAY
  }

  function Amount(): Contribution -> real {
    (c: Contribution) => c.amount
  }

  function InRange(group: string, start: int, end: int): Contribution -> bool {
    (c: Contribution) => c.group == group && start <= c.time <= end
  }

  /** Where local midnight falls in the UTC day, for a zone `tz` milliseconds east of Greenwich. */
  function Midnight(tz: int): (r: int)
    ensures 0 <= r < DAY && (r + tz) % DAY == 0
  {
    -tz % DAY
  }

  // ---- The days that get a bucket ----

  /** From the UTC day in which the range's first local day begins to the one in which its last begins. */
  function BucketDays(start: int, end: int, tz: int): (days: seq<int>)
    ensures forall i, j :: 0 <= i < j < |days| ==> days[j] == days[i] + (j - i)
  {
    var first, last := (start - Midnight(tz)) / DAY, (end - Midnight(tz)) / DAY;
    seq(Max(0, last - first + 1), i => first + i)
  }

  /** A day has a bucket iff its local midnight is later than a day before the range starts, and not after
      it ends. */
  lemma BucketDaysAre(start: int, end: int, tz: int, d: int)
    ensures d in BucketDays(start, end, tz) <==> start - DAY < d * DAY + Midnight(tz) <= end
  {
    var first, last := (start - Midnight(tz)) / DAY, (end - Midnight(tz)) / DAY;
    if first <= d <= last {
      assert BucketDays(start, end, tz)[d - first] == d;
    }
  }

  method BuildBuckets(start: int, end: int, tz: int) returns (days: seq<int>, buckets: map<int, Bucket>)
    ensures days == BucketDays(start, end, tz)
    ensures forall d :: d in buckets <==> d in days
    ensures forall d :: d in buckets ==> buckets[d] == Bucket(0.0, 0.0)
  {
    days, buckets := [], map[];
    var cursor := (start + tz) / DAY * DAY - tz;
    ghost var first := (start - Midnight(tz)) / DAY;
    while cursor <= end
      invariant cursor == (first + |days|) * DAY + Midnight(tz)
      invariant |days| > 0 ==> cursor - DAY <= end
      invariant forall i :: 0 <= i < |days| ==> days[i] == first + i
      invariant forall d :: d in buckets <==> d in days
      invariant forall d :: d in buckets ==> buckets[d] == Bucket(0.0, 0.0)
      decreases end - cursor
    {
      var key := cursor / DAY;
      days := days + [key];
      buckets := buckets[key := Bucket(0.0, 0.0)];
      cursor := cursor + DAY;
    }
  }

  /** The UTC instant up to which buckets reach. */
  function Reach(end: int, tz: int): int {
    ((end - Midnight(tz)) / DAY + 1) * DAY
  }

  predicate Covered(start: int, end: int, tz: int, t: int) {
    t / DAY in BucketDays(start, end, tz)
  }

  /** An instant of the range has a bucket iff it lies before `Reach`. */
  lemma CoveredExactly(start: int, end: int, tz: int, t: int)
    requires start <= t <= end
    ensures Covered(start, end, tz, t) <==> t < Reach(end, tz)
  {
    BucketDaysAre(start, end, tz, t / DAY);
  }

  /** Every instant of the range has a bucket iff the range is empty or ends no earlier in the UTC day than
      local midnight falls; in UTC that always holds. */
  lemma AllCoveredIff(start: int, end: int, tz: int)
    ensures (forall t :: start <= t <= end ==> Covered(start, end, tz, t))
            <==> end < start || end % DAY >= Midnight(tz)
  {
    hide Covered;
    forall t | start <= t <= end ensures Covered(start, end, tz, t) <==> t < Reach(end, tz) {
      CoveredExactly(start, end, tz, t);
    }
    if start <= end {
      CoveredExactly(start, end, tz, end);
    }
  }

  // ---- The trends ----

  function DayTrend(events: seq<Contribution>, day: int): Day {
    Day(day, GroupSum(events, DayOf(), One(), day), GroupSum(events, DayOf(), Amount(), day))
  }

  function TrendsOver(events: seq<Contribution>, days: seq<int>): (data: seq<Day>)
    ensures |data| == |days| && forall i :: 0 <= i < |data| ==> data[i] == DayTrend(events, days[i])
  {
    if days == [] then []
    else TrendsOver(events, days[..|days| - 1]) + [DayTrend(events, days[|days| - 1])]
  }

  function Trends(table: seq<Contribution>, group: string, start: int, end: int, tz: int): seq<Day> {
    TrendsOver(Filter(table, InRange(group, start, end)), BucketDays(start, end, tz))
  }

  /** A contribution of the group, made in the range and on this UTC day. */
  predicate FallsOn(c: Contribution, group: string, start: int, end: int, day: int) {
    c.group == group && start <= c.time <= end && 86400000 * day <= c.time < 86400000 * (day + 1)
  }

  function CountOn(table: seq<Contribution>, group: string, start: int, end: int, day: int): nat {
    if table == [] then 0
    else
      CountOn(table[..|table| - 1], group, start, end, day)
      + if FallsOn(table[|table| - 1], group, start, end, day) then 1 else 0
  }

  function VolumeOn(table: seq<Contribution>, group: string, start: int, end: int, day: int): real {
    if table == [] then 0.0
    else
      VolumeOn(table[..|table| - 1], group, start, end, day)
      + if FallsOn(table[|table| - 1], group, start, end, day) then table[|table| - 1].amount else 0.0
  }

  lemma FallsOnIffKept(c: Contribution, group: string, start: int, end: int, day: int)
    ensures FallsOn(c, group, start, end, day) <==> InRange(group, start, end)(c) && DayOf()(c) == day
  {
  }

  lemma {:induction false} TrendIsOn(table: seq<Contribution>, group: string, start: int, end: int, day: int)
    ensures DayTrend(Filter(table, InRange(group, start, end)), day)
            == Day(day, CountOn(table, group, start, end, day) as real, VolumeOn(table, group, start, end, day))
  {
    hide *;
    if table == [] {
      NothingOn(group, start, end, day);
    } else {
      var init, c := table[..|table| - 1], table[|table| - 1];
      assert table == init + [c];
      TrendIsOn(init, group, start, end, day);
      TrendSnoc(init, c, group, start, end, day);
      OnSnoc(table, group, start, end, day);
    }
  }

  lemma NothingOn(group: string, start: int, end: int, day: int)
    ensures DayTrend(Filter([], InRange(group, start, end)), day) == Day(day, 0.0, 0.0)
    ensures CountOn([], group, start, end, day) == 0 && VolumeOn([], group, start, end, day) == 0.0
  {
  }

  lemma OnSnoc(table: seq<Contribution>, group: string, start: int, end: int, day: int)
    requires table != []
    ensures var init, c := table[..|table| - 1], table[|table| - 1];
            var falls := FallsOn(c, group, start, end, day);
            && CountOn(table, group, start, end, day)
               == CountOn(init, group, start, end, day) + (if falls then 1 else 0)
            && VolumeOn(table, group, start, end, day)
               == VolumeOn(init, group, start, end, day) + (if falls then c.amount else 0.0)
  {
    hide FallsOn;
  }

  lemma TrendSnoc(table: seq<Contribution>, c: Contribution, group: string, start: int, end: int, day: int)
    ensures var before := DayTrend(Filter(table, InRange(group, start, end)), day);
            DayTrend(Filter(table + [c], InRange(group, start, end)), day)
            == if FallsOn(c, group, start, end, day) then Day(day, before.contributions + 1.0, before.volume + c.amount)
               else before
  {
    var events := Filter(table, InRange(group, start, end));
    FilterSnoc(table, c, InRange(group, start, end));
    FallsOnIffKept(c, group, start, end, day);
    hide Filter, GroupSum, FallsOn, InRange, DayOf;
    if InRange(group, start, end)(c) {
      GroupSumSnoc(events, c, DayOf(), One(), day);
      GroupSumSnoc(events, c, DayOf(), Amount(), day);
    } else {
      assert events + [] == events;
    }
  }

  /** One entry for each day whose local midnight lies less than a day before the range or in it, in order, with
      the number and the volume of exactly the contributions that fall on it. */
  ghost predicate AreTrends(data: seq<Day>, table: seq<Contribution>, group: string, start: int, end: int, tz: int) {
    && (forall i, j :: 0 <= i < j < |data| ==> data[i].day < data[j].day)
    && (forall day :: (exists i :: 0 <= i < |data| && data[i].day == day)
                      <==> start - 86400000 < day * 86400000 + -tz % 86400000 <= end)
    && (forall i :: 0 <= i < |data| ==>
          && data[i].contributions == CountOn(table, group, start, end, data[i].day) as real
          && data[i].volume == VolumeOn(table, group, start, end, data[i].day))
  }

  lemma TrendsAre(table: seq<Contribution>, group: string, start: int, end: int, tz: int)
    ensures AreTrends(Trends(table, group, start, end, tz), table, group, start, end, tz)
  {
    var data, days := Trends(table, group, start, end, tz), BucketDays(start, end, tz);
    hide CountOn, VolumeOn, Filter, GroupSum;
    forall i | 0 <= i < |data|
      ensures data[i] == Day(days[i], CountOn(table, group, start, end, days[i]) as real,
                             VolumeOn(table, group, start, end, days[i]))
    {
      TrendIsOn(table, group, start, end, days[i]);
    }
    hide Trends, BucketDays;
    forall day ensures (exists i :: 0 <= i < |data| && data[i].day == day)
                       <==> start - 86400000 < day * 86400000 + -tz % 86400000 <= end {
      BucketDaysAre(start, end, tz, day);
      assert Midnight(tz) == -tz % 86400000;
      if day in days {
        var i :| 0 <= i < |days| && days[i] == day;
        assert data[i].day == day;
      }
    }
  }

  function Count1(): Bucket -> real {
    (b: Bucket) => b.contributions
  }

  function Volume1(): Bucket -> real {
    (b: Bucket) => b.volume
  }

  method GetGroupTrends(table: seq<Contribution>, group: string, start: int, end: int, tz: int)
      returns (data: seq<Day>)
    ensures data == Trends(table, group, start, end, tz) && AreTrends(data, table, group, start, end, tz)
  {
    TrendsAre(table, group, start, end, tz);
    hide AreTrends, GroupSum, BucketDays, Totals;
    var contributions := Filter(table, InRange(group, start, end));
    var days, buckets := BuildBuckets(start, end, tz);
    EmptyTotals(buckets);
    for i := 0 to |contributions|
      invariant forall d :: d in buckets <==> d in days
      invariant Totals(contributions[..i], DayOf(), One(), buckets, Count1())
      invariant Totals(contributions[..i], DayOf(), Amount(), buckets, Volume1())
    {
      var c := contributions[i];
      var key := c.time / DAY;
      var before := buckets;
      if key in buckets {
        var b := buckets[key];
        buckets := buckets[key := Bucket(b.contributions + 1.0, b.volume + c.amount)];
      }
      assert contributions[..i + 1] == contributions[..i] + [c];
      TotalsFixedStep(contributions[..i], c, DayOf(), before, One(), Count1(), buckets);
      TotalsFixedStep(contributions[..i], c, DayOf(), before, Amount(), Volume1(), buckets);
    }
    assert contributions[..|contributions|] == contributions;
    assert forall i :: 0 <= i < |days| ==> days[i] in days;
    data := seq(|days|, i requires 0 <= i < |days| && days[i] in buckets =>
      Day(days[i], buckets[days[i]].contributions, buckets[days[i]].volume));
    BucketsAreTrends(contributions, days, buckets, data);
  }

  lemma EmptyTotals(buckets: map<int, Bucket>)
    requires forall d :: d in buckets ==> buckets[d] == Bucket(0.0, 0.0)
    ensures Totals([], DayOf(), One(), buckets, Count1()) && Totals([], DayOf(), Amount(), buckets, Volume1())
  {
  }

  lemma BucketsAreTrends(events: seq<Contribution>, days: seq<int>, buckets: map<int, Bucket>, data: seq<Day>)
    requires forall d :: d in buckets <==> d in days
    requires Totals(events, DayOf(), One(), buckets, Count1()) && Totals(events, DayOf(), Amount(), buckets, Volume1())
    requires |data| == |days|
    requires forall i :: 0 <= i < |days| ==>
               days[i] in buckets && data[i] == Day(days[i], buckets[days[i]].contributions, buckets[days[i]].volume)
    ensures data == TrendsOver(events, days)
  {
    hide GroupSum;
  }

  // ---- Conservation ----

  function DayCount(): Day -> real {
    (d: Day) => d.contributions
  }

  function DayVolume(): Day -> real {
    (d: Day) => d.volume
  }

  lemma {:induction false} TrendsSum(events: seq<Contribution>, days: seq<int>)
    ensures Sum(TrendsOver(events, days), DayCount()) == Sum(days, GroupSums(events, DayOf(), One()))
    ensures Sum(TrendsOver(events, days), DayVolume()) == Sum(days, GroupSums(events, DayOf(), Amount()))
  {
    if days != [] {
      hide GroupSum;
      var init := days[..|days| - 1];
      TrendsSum(events, init);
    }
  }

  function Reached(end: int, tz: int): Contribution -> bool {
    (c: Contribution) => c.time < Reach(end, tz)
  }

  /** The buckets add up to exactly the group's contributions of the range made before `Reach`: those after
      it are dropped without a trace. */
  lemma TrendsTotals(table: seq<Contribution>, group: string, start: int, end: int, tz: int)
    ensures var events := Filter(table, InRange(group, start, end));
            var data := Trends(table, group, start, end, tz);
            && Sum(data, DayCount()) == |Filter(events, Reached(end, tz))| as real
            && Sum(data, DayVolume()) == Sum(Filter(events, Reached(end, tz)), Amount())
  {
    hide Sum, GroupSums, Filter;
    var events := Filter(table, InRange(group, start, end));
    var days := BucketDays(start, end, tz);
    TrendsSum(events, days);
    GroupsAddUp(events, DayOf(), One(), days);
    GroupsAddUp(events, DayOf(), Amount(), days);
    FilterMembers(table, InRange(group, start, end));
    forall c | c in events ensures KeyIn(DayOf(), days)(c) == Reached(end, tz)(c) {
      assert Covered(start, end, tz, c.time) == KeyIn(DayOf(), days)(c);
      CoveredExactly(start, end, tz, c.time);
    }
    FilterAgree(events, KeyIn(DayOf(), days), Reached(end, tz));
    SumOfOnes(Filter(events, Reached(end, tz)));
  }

  ghost predicate Conserves(table: seq<Contribution>, group: string, start: int, end: int, tz: int) {
    var events := Filter(table, InRange(group, start, end));
    var data := Trends(table, group, start, end, tz);
    Sum(data, DayCount()) == |events| as real && Sum(data, DayVolume()) == Sum(events, Amount())
  }

  lemma CoveredConserves(table: seq<Contribution>, group: string, start: int, end: int, tz: int)
    requires end < start || end % DAY >= Midnight(tz)
    ensures Conserves(table, group, start, end, tz)
  {
    hide Sum, Filter, Trends;
    var events := Filter(table, InRange(group, start, end));
    TrendsTotals(table, group, start, end, tz);
    FilterMembers(table, InRange(group, start, end));
    AllKept(events, Reached(end, tz));
  }

  lemma LateContributionIsLost(group: string, start: int, end: int, tz: int)
    requires start <= end && end % DAY < Midnight(tz)
    ensures !Conserves([Contribution(group, end, 1.0)], group, start, end, tz)
  {
    var c := Contribution(group, end, 1.0);
    AllKept([c], InRange(group, start, end));
    LastIsNotReached(c, end, tz);
    TrendsTotals([c], group, start, end, tz);
    hide Sum, Trends, Filter;
  }

  lemma LastIsNotReached(c: Contribution, end: int, tz: int)
    requires c.time == end && end % DAY < Midnight(tz)
    ensures |Filter([c], Reached(end, tz))| == 0
  {
    NoneCounted([c], Reached(end, tz));
  }

  ghost predicate ConservesAll(start: int, end: int, tz: int) {
    forall table, group :: Conserves(table, group, start, end, tz)
  }

  /** Counts and volumes are conserved, whatever was contributed, iff the range is empty or ends no earlier
      in the UTC day than local midnight falls; so always with a clock in UTC. */
  lemma ConservesIff(start: int, end: int, tz: int)
    ensures ConservesAll(start, end, tz) <==> end < start || end % DAY >= Midnight(tz)
    ensures tz == 0 ==> ConservesAll(start, end, tz)
  {
    hide Conserves;
    if end < start || end % DAY >= Midnight(tz) {
      forall table, group ensures Conserves(table, group, start, end, tz) {
        CoveredConserves(table, group, start, end, tz);
      }
    } else {
      LateContributionIsLost("group", start, end, tz);
    }
  }
}
