/** Event logs grouped into a series of points, one for each interval that holds an event. */
module IntervalGrouping {
  import opened Sequences
  import opened Grouping

  /** An event; `amount` is its nested field, absent when the path leads nowhere. */
  datatype Item = Item(time: int, amount: Option<real>)

  datatype Point = Point(time: int, value: real)

  const MINUTE := 60000

  /** What an event adds: the field's value, nothing if it is absent, or 1 when no field is named. */
  function ValueOf(byField: bool): Item -> real {
    (x: Item) => if !byField then 1.0 else if x.amount.Some? then x.amount.value else 0.0
  }

  function IntervalOf(interval: int): Item -> int
    requires interval > 0
  {
    (x: Item) => x.time / interval * interval
  }

  function Within(start: int, interval: int): Item -> bool {
    (x: Item) => start <= x.time < start + interval
  }

  // ---- What a grouping is ----

  ghost predicate Holds(items: seq<Item>, start: int, interval: int) {
    exists i :: 0 <= i < |items| && Within(start, interval)(items[i])
  }

  ghost predicate Increasing(points: seq<Point>) {
    forall i, j :: 0 <= i < j < |points| ==> points[i].time < points[j].time
  }

  ghost predicate HasPoint(points: seq<Point>, time: int) {
    exists i :: 0 <= i < |points| && points[i].time == time
  }

  /** Strictly increasing starts; exactly the multiples of the interval whose interval holds an event, each
      with the sum over that interval. */
  ghost predicate IsGrouping(items: seq<Item>, interval: int, value: Item -> real, points: seq<Point>) {
    && Increasing(points)
    && (forall t :: HasPoint(points, t) <==> Holds(items, t, interval) && Aligned(t, interval))
    && (forall i :: 0 <= i < |points| ==>
          points[i].value == Sum(Filter(items, Within(points[i].time, interval)), value))
  }

  predicate Aligned(t: int, interval: int) {
    interval > 0 && t % interval == 0
  }

  /** The events from `start` to before `end`, each counted, or added up by its field, where an absent one adds 0. */
  function TotalIn(items: seq<Item>, start: int, end: int, byField: bool): real {
    if items == [] then 0.0
    else
      var x := items[|items| - 1];
      TotalIn(items[..|items| - 1], start, end, byField)
      + if !(start <= x.time < end) then 0.0
        else if !byField then 1.0
        else match x.amount case Some(amount) => amount case None => 0.0
  }

  lemma {:induction false} SumIsTotal(items: seq<Item>, start: int, interval: int, byField: bool)
    ensures Sum(Filter(items, Within(start, interval)), ValueOf(byField))
            == TotalIn(items, start, start + interval, byField)
  {
    hide Sum, Filter, TotalIn;
    if items == [] {
      NothingIn(start, interval, byField);
    } else {
      var init, x := items[..|items| - 1], items[|items| - 1];
      assert items == init + [x];
      SumIsTotal(init, start, interval, byField);
      TotalSnoc(items, start, start + interval, byField);
      FilterSnoc(init, x, Within(start, interval));
      if Within(start, interval)(x) {
        SumSnoc(Filter(init, Within(start, interval)), x, ValueOf(byField));
      } else {
        assert Filter(init, Within(start, interval)) + [] == Filter(init, Within(start, interval));
      }
    }
  }

  lemma NothingIn(start: int, interval: int, byField: bool)
    ensures Sum(Filter([], Within(start, interval)), ValueOf(byField)) == 0.0
    ensures TotalIn([], start, start + interval, byField) == 0.0
  {
  }

  lemma TotalSnoc(items: seq<Item>, start: int, end: int, byField: bool)
    requires items != []
    ensures var x := items[|items| - 1];
            TotalIn(items, start, end, byField)
            == TotalIn(items[..|items| - 1], start, end, byField)
               + if start <= x.time < end then ValueOf(byField)(x) else 0.0
  {
  }

  ghost predicate AnyIn(items: seq<Item>, start: int, end: int) {
    exists i :: 0 <= i < |items| && start <= items[i].time < end
  }

  /** The same in minutes: a point at each multiple of `minutes` minutes within which an event falls, and no other,
      earliest first, each with its total. */
  ghost predicate IsSeries(items: seq<Item>, minutes: int, byField: bool, points: seq<Point>)
    requires minutes > 0
  {
    && (forall i, j :: 0 <= i < j < |points| ==> points[i].time < points[j].time)
    && (forall t :: HasPoint(points, t) <==> t % (60000 * minutes) == 0 && AnyIn(items, t, t + 60000 * minutes))
    && (forall i :: 0 <= i < |points| ==>
          points[i].value == TotalIn(items, points[i].time, points[i].time + 60000 * minutes, byField))
  }

  lemma GroupingIsSeries(items: seq<Item>, minutes: int, byField: bool, points: seq<Point>)
    requires minutes > 0 && IsGrouping(items, minutes * MINUTE, ValueOf(byField), points)
    ensures IsSeries(items, minutes, byField, points)
  {
    hide Sum, Filter, TotalIn;
    var interval := 60000 * minutes;
    assert interval == minutes * MINUTE;
    forall i | 0 <= i < |points|
      ensures points[i].value == TotalIn(items, points[i].time, points[i].time + interval, byField)
    {
      SumIsTotal(items, points[i].time, interval, byField);
    }
    forall t ensures HasPoint(points, t) <==> t % interval == 0 && AnyIn(items, t, t + interval) {
      assert HasPoint(points, t) <==> Holds(items, t, interval) && Aligned(t, interval);
      HoldsIffAny(items, t, interval);
    }
  }

  lemma HoldsIffAny(items: seq<Item>, start: int, interval: int)
    ensures Holds(items, start, interval) <==> AnyIn(items, start, start + interval)
  {
    if Holds(items, start, interval) {
      var i :| 0 <= i < |items| && Within(start, interval)(items[i]);
      assert start <= items[i].time < start + interval;
    }
    if AnyIn(items, start, start + interval) {
      var i :| 0 <= i < |items| && start <= items[i].time < start + interval;
      assert Within(start, interval)(items[i]);
    }
  }

  // ---- Properties ----

  /** There is one grouping only, so the order of the events does not matter to the code. */
  lemma GroupingIsUnique(items: seq<Item>, interval: int, value: Item -> real, p: seq<Point>, q: seq<Point>)
    requires interval > 0
    requires IsGrouping(items, interval, value, p) && IsGrouping(items, interval, value, q)
    ensures p == q
  {
    forall t ensures HasPoint(p, t) <==> HasPoint(q, t) {
    }
    SameTimes(p, q);
    forall i | 0 <= i < |p| ensures p[i] == q[i] {
      assert p[i].time == q[i].time;
    }
  }

  lemma {:induction false} SameTimes(p: seq<Point>, q: seq<Point>)
    requires Increasing(p) && Increasing(q)
    requires forall t :: HasPoint(p, t) <==> HasPoint(q, t)
    ensures |p| == |q| && forall i :: 0 <= i < |p| ==> p[i].time == q[i].time
  {
    if p == [] {
      if q != [] {
        assert HasPoint(q, q[0].time);
      }
    } else {
      assert HasPoint(p, p[|p| - 1].time);
      LastIsLargest(p, q);
      LastIsLargest(q, p);
      var p', q' := p[..|p| - 1], q[..|q| - 1];
      forall t ensures HasPoint(p', t) <==> HasPoint(q', t) {
        WithoutLast(p, t);
        WithoutLast(q, t);
      }
      SameTimes(p', q');
    }
  }

  lemma LastIsLargest(p: seq<Point>, q: seq<Point>)
    requires Increasing(p) && Increasing(q)
    requires forall t :: HasPoint(p, t) <==> HasPoint(q, t)
    ensures p != [] ==> q != [] && p[|p| - 1].time <= q[|q| - 1].time
  {
    if p != [] {
      assert HasPoint(p, p[|p| - 1].time);
      var i :| 0 <= i < |q| && q[i].time == p[|p| - 1].time;
    }
  }

  lemma WithoutLast(p: seq<Point>, t: int)
    requires Increasing(p) && p != []
    ensures HasPoint(p[..|p| - 1], t) <==> HasPoint(p, t) && t != p[|p| - 1].time
  {
    if HasPoint(p, t) && t != p[|p| - 1].time {
      var i :| 0 <= i < |p| && p[i].time == t;
      assert p[..|p| - 1][i].time == t;
    }
  }

  function TimesOf(points: seq<Point>): (r: seq<int>)
    ensures |r| == |points| && forall i :: 0 <= i < |r| ==> r[i] == points[i].time
  {
    if points == [] then [] else TimesOf(points[..|points| - 1]) + [points[|points| - 1].time]
  }

  function PointValue(): Point -> real {
    (p: Point) => p.value
  }

  lemma QuotientIs(time: int, interval: int, m: int)
    requires interval > 0 && m * interval <= time < m * interval + interval
    ensures time / interval == m
  {
    var q := time / interval;
    assert q * interval <= time < q * interval + interval;
    assert (m - q) * interval == m * interval - q * interval;
    SmallMultiple(m - q, interval);
  }

  /** `k` is the start computed for a time iff it is the aligned start of the interval around it. */
  lemma FloorIsAligned(time: int, interval: int, k: int)
    requires interval > 0
    ensures time / interval * interval == k <==> Aligned(k, interval) && k <= time < k + interval
  {
    MultipleIsAligned(time / interval, interval);
    if Aligned(k, interval) && k <= time < k + interval {
      QuotientIs(time, interval, k / interval);
    }
  }

  lemma MultipleIsAligned(q: int, interval: int)
    requires interval > 0
    ensures (q * interval) % interval == 0
  {
    var x := q * interval;
    assert (q - x / interval) * interval == x % interval;
    SmallMultiple(q - x / interval, interval);
  }

  lemma SmallMultiple(d: int, interval: int)
    requires interval > 0 && d * interval < interval && -d * interval < interval
    ensures d == 0
  {
    if d >= 1 {
      BigMultiple(d, interval);
    } else if d <= -1 {
      BigMultiple(-d, interval);
    }
  }

  lemma BigMultiple(d: int, interval: int)
    requires interval > 0 && d >= 1
    ensures d * interval >= interval
  {
    assert (d - 1) * interval >= 0;
  }

  lemma GroupIsInterval(items: seq<Item>, interval: int, value: Item -> real, k: int)
    requires Aligned(k, interval)
    ensures GroupSum(items, IntervalOf(interval), value, k) == Sum(Filter(items, Within(k, interval)), value)
  {
    hide Filter, Sum;
    forall x | x in items ensures HasKey(IntervalOf(interval), k)(x) == Within(k, interval)(x) {
      FloorIsAligned(x.time, interval, k);
    }
    FilterAgree(items, HasKey(IntervalOf(interval), k), Within(k, interval));
  }

  lemma {:induction false} PointsSum(items: seq<Item>, interval: int, value: Item -> real, points: seq<Point>)
    requires interval > 0
    requires forall i :: 0 <= i < |points| ==>
               points[i].value == GroupSum(items, IntervalOf(interval), value, points[i].time)
    ensures Sum(points, PointValue()) == Sum(TimesOf(points), GroupSums(items, IntervalOf(interval), value))
  {
    if points != [] {
      hide GroupSum;
      PointsSum(items, interval, value, points[..|points| - 1]);
      SumSnoc(TimesOf(points[..|points| - 1]), points[|points| - 1].time,
              GroupSums(items, IntervalOf(interval), value));
    }
  }

  /** Nothing is lost and nothing counted twice: the points add up to the events. */
  lemma GroupingConserves(items: seq<Item>, interval: int, value: Item -> real, points: seq<Point>)
    requires interval > 0 && IsGrouping(items, interval, value, points)
    ensures Sum(points, PointValue()) == Sum(items, value)
  {
    hide Sum, Filter, GroupSum, IsGrouping;
    var keyOf, times := IntervalOf(interval), TimesOf(points);
    TimesAreDistinct(items, interval, value, points);
    forall i | 0 <= i < |points|
      ensures points[i].value == GroupSum(items, keyOf, value, points[i].time)
    {
      PointIsInterval(items, interval, value, points, i);
      GroupIsInterval(items, interval, value, points[i].time);
    }
    forall x | x in items ensures keyOf(x) in times {
      ItemHasPoint(items, interval, value, points, x);
    }
    PointsSum(items, interval, value, points);
    GroupsConserve(items, keyOf, value, times);
  }

  lemma TimesAreDistinct(items: seq<Item>, interval: int, value: Item -> real, points: seq<Point>)
    requires IsGrouping(items, interval, value, points)
    ensures Distinct(TimesOf(points))
  {
  }

  lemma PointIsInterval(items: seq<Item>, interval: int, value: Item -> real, points: seq<Point>, i: nat)
    requires IsGrouping(items, interval, value, points) && i < |points|
    ensures Aligned(points[i].time, interval)
    ensures points[i].value == Sum(Filter(items, Within(points[i].time, interval)), value)
  {
    assert HasPoint(points, points[i].time);
  }

  lemma ItemHasPoint(items: seq<Item>, interval: int, value: Item -> real, points: seq<Point>, x: Item)
    requires interval > 0 && IsGrouping(items, interval, value, points) && x in items
    ensures IntervalOf(interval)(x) in TimesOf(points)
  {
    var k := IntervalOf(interval)(x);
    FloorIsAligned(x.time, interval, k);
    var i :| 0 <= i < |items| && items[i] == x;
    assert Within(k, interval)(items[i]);
    assert HasPoint(points, k);
    var j :| 0 <= j < |points| && points[j].time == k;
    assert TimesOf(points)[j] == k;
  }

  // ---- The loop ----

  function Time(): int -> real {
    (t: int) => t as real
  }

  function Itself(): real -> real {
    (r: real) => r
  }

  /** A map from interval starts to sums, filled event by event; then its entries, sorted by start. */
  method GroupDataByInterval(items: seq<Item>, intervalMinutes: int, byField: bool) returns (points: seq<Point>)
    requires intervalMinutes > 0
    ensures IsGrouping(items, intervalMinutes * MINUTE, ValueOf(byField), points)
    ensures IsSeries(items, intervalMinutes, byField, points)
  {
    hide GroupSum, Keyed, Totals, IsGrouping, IsSeries;
    var interval := intervalMinutes * MINUTE;
    ghost var keyOf, value := IntervalOf(interval), ValueOf(byField);
    var order: seq<int>, grouped: map<int, real> := [], map[];
    NothingAccumulated(keyOf, value);
    for i := 0 to |items|
      invariant Keyed(items[..i], keyOf, order, grouped)
      invariant Totals(items[..i], keyOf, value, grouped, Itself())
    {
      var x := items[i];
      var start := x.time / interval * interval;
      var v := if !byField then 1.0 else if x.amount.Some? then x.amount.value else 0.0;
      var sum := (if start in grouped then grouped[start] else 0.0) + v;
      assert items[..i + 1] == items[..i] + [x];
      TotalsStep(items[..i], x, keyOf, order, grouped, value, Itself(), sum);
      KeyedStep(items[..i], x, keyOf, order, grouped, sum);
      order := if start in grouped then order else order + [start];
      grouped := grouped[start := sum];
    }
    assert items[..|items|] == items;
    var sorted := SortBy(order, Time());
    SortedKeys(items, keyOf, order, grouped);
    points := seq(|sorted|, i requires 0 <= i < |sorted| && sorted[i] in grouped =>
      Point(sorted[i], grouped[sorted[i]]));
    AccumulatedIsGrouping(items, interval, value, sorted, grouped, points);
    GroupingIsSeries(items, intervalMinutes, byField, points);
  }

  lemma NothingAccumulated(keyOf: Item -> int, value: Item -> real)
    ensures Keyed<Item, int, real>([], keyOf, [], map[]) && Totals([], keyOf, value, map[], Itself())
  {
  }

  lemma SortedKeys(items: seq<Item>, keyOf: Item -> int, order: seq<int>, m: map<int, real>)
    requires Keyed(items, keyOf, order, m)
    ensures var sorted := SortBy(order, Time());
            && Keyed(items, keyOf, sorted, m)
            && (forall i :: 0 <= i < |sorted| ==> sorted[i] in m)
            && forall i, j :: 0 <= i < j < |sorted| ==> sorted[i] < sorted[j]
  {
    hide SortBy;
    forall k ensures k in SortBy(order, Time()) <==> k in order {
      SortMember(order, Time(), k);
    }
    SortStrict(order);
  }

  lemma {:induction false} SortStrict(order: seq<int>)
    requires Distinct(order)
    ensures forall i, j :: 0 <= i < j < |order| ==> SortBy(order, Time())[i] < SortBy(order, Time())[j]
  {
    if order != [] {
      var init, last := order[..|order| - 1], order[|order| - 1];
      SortStrict(init);
      SortMember(init, Time(), last);
      assert forall i :: 0 <= i < |init| ==> init[i] == order[i];
      assert last !in init;
      assert SortBy(order, Time()) == Insert(SortBy(init, Time()), last, Time());
      InsertStrict(SortBy(init, Time()), last);
    }
  }

  lemma {:induction false} InsertStrict(s: seq<int>, x: int)
    requires x !in s && forall i, j :: 0 <= i < j < |s| ==> s[i] < s[j]
    ensures forall i, j :: 0 <= i < j < |s| + 1 ==> Insert(s, x, Time())[i] < Insert(s, x, Time())[j]
  {
    if s == [] {
    } else if s[|s| - 1] > x {
      var init, last := s[..|s| - 1], s[|s| - 1];
      InsertStrict(init, x);
      var r := Insert(init, x, Time());
      forall i | 0 <= i < |r| ensures r[i] < last {
        InsertMember(init, x, Time(), r[i]);
        if r[i] in init {
          var k :| 0 <= k < |init| && init[k] == r[i];
          assert s[k] == r[i];
        }
      }
    } else {
      assert s[|s| - 1] in s;
      assert Insert(s, x, Time()) == s + [x];
    }
  }

  lemma AccumulatedIsGrouping(items: seq<Item>, interval: int, value: Item -> real, keys: seq<int>,
                              m: map<int, real>, points: seq<Point>)
    requires interval > 0
    requires Keyed(items, IntervalOf(interval), keys, m) && Totals(items, IntervalOf(interval), value, m, Itself())
    requires forall i, j :: 0 <= i < j < |keys| ==> keys[i] < keys[j]
    requires |points| == |keys|
    requires forall i :: 0 <= i < |keys| ==> keys[i] in m && points[i] == Point(keys[i], m[keys[i]])
    ensures IsGrouping(items, interval, value, points)
  {
    hide Filter, Sum, GroupSum;
    var keyOf := IntervalOf(interval);
    forall t ensures HasPoint(points, t) <==> t in m {
      if HasPoint(points, t) {
        var i :| 0 <= i < |points| && points[i].time == t;
        assert keys[i] == t;
      }
      if t in m {
        assert t in keys;
        var i :| 0 <= i < |keys| && keys[i] == t;
        assert points[i].time == t;
      }
    }
    forall t ensures t in m <==> Holds(items, t, interval) && Aligned(t, interval) {
      KeysAreIntervals(items, interval, keys, m, t);
    }
    forall i | 0 <= i < |points|
      ensures points[i].value == Sum(Filter(items, Within(points[i].time, interval)), value)
    {
      assert Aligned(keys[i], interval);
      GroupIsInterval(items, interval, value, keys[i]);
    }
  }

  lemma KeysAreIntervals(items: seq<Item>, interval: int, keys: seq<int>, m: map<int, real>, t: int)
    requires interval > 0 && Keyed(items, IntervalOf(interval), keys, m)
    ensures t in m <==> Holds(items, t, interval) && Aligned(t, interval)
  {
    if t in m {
      var x :| x in items && IntervalOf(interval)(x) == t;
      FloorIsAligned(x.time, interval, t);
      var i :| 0 <= i < |items| && items[i] == x;
      assert Within(t, interval)(items[i]);
    }
    if Holds(items, t, interval) && Aligned(t, interval) {
      var i :| 0 <= i < |items| && Within(t, interval)(items[i]);
      FloorIsAligned(items[i].time, interval, t);
      assert items[i] in items;
    }
  }
}
