/** The A/B test service: methods over its tests and its events, and the results it reports. */
module AbService {
  import opened AbResults
  import opened AbTests
  import opened Grouping
  import opened Sequences
  import opened StringHash
  import opened TrafficSplit
  import WilsonInterval

  datatype Tally = Tally(variant: string, visitors: nat, conversions: nat)

  const MIN_SAMPLE_SIZE := 100

  function TallyOf(events: seq<Event>, test: string, variant: string): Tally {
    Tally(variant, Count(events, EventOf(Assigned, test, variant)), Count(events, EventOf(Conversion, test, variant)))
  }

  /** One tally for each of these variants. */
  function TalliesOf(events: seq<Event>, test: string, variants: seq<string>): (r: seq<Tally>)
    ensures |r| == |variants| && forall i :: 0 <= i < |r| ==> r[i] == TallyOf(events, test, variants[i])
  {
    if variants == [] then []
    else
      TalliesOf(events, test, variants[..|variants| - 1]) + [TallyOf(events, test, variants[|variants| - 1])]
  }

  /** The tally's counts are the numbers of assignments and of conversions on record for its variant. */
  ghost predicate Tallied(events: seq<Event>, test: string, t: Tally) {
    && t.visitors == |set i | 0 <= i < |events| && events[i].kind == Assigned && events[i].test == test
                             && events[i].variant == t.variant|
    && t.conversions == |set i | 0 <= i < |events| && events[i].kind == Conversion && events[i].test == test
                                && events[i].variant == t.variant|
  }

  /** One such tally for each variant, in its order. */
  ghost predicate AreTallies(ts: seq<Tally>, events: seq<Event>, test: string, vs: seq<Variant>) {
    |ts| == |vs| && forall i :: 0 <= i < |ts| ==> ts[i].variant == vs[i].name && Tallied(events, test, ts[i])
  }

  lemma TallyIsTallied(events: seq<Event>, test: string, variant: string)
    ensures TallyOf(events, test, variant).variant == variant && Tallied(events, test, TallyOf(events, test, variant))
  {
    var visitor, conversion := EventOf(Assigned, test, variant), EventOf(Conversion, test, variant);
    CountIsPositions(events, visitor);
    CountIsPositions(events, conversion);
    hide Count;
    assert Positions(events, visitor)
        == set i | 0 <= i < |events| && events[i].kind == Assigned && events[i].test == test
                   && events[i].variant == variant;
    assert Positions(events, conversion)
        == set i | 0 <= i < |events| && events[i].kind == Conversion && events[i].test == test
                   && events[i].variant == variant;
  }

  lemma TalliesAre(events: seq<Event>, test: string, vs: seq<Variant>)
    ensures AreTallies(TalliesOf(events, test, Names(vs)), events, test, vs)
  {
    hide Tallied, TallyOf;
    forall i | 0 <= i < |vs| ensures TallyOf(events, test, vs[i].name).variant == vs[i].name
                                     && Tallied(events, test, TallyOf(events, test, vs[i].name)) {
      TallyIsTallied(events, test, vs[i].name);
    }
  }

  function Visitors(): Tally -> real {
    (t: Tally) => t.visitors as real
  }

  function Conversions(): Tally -> real {
    (t: Tally) => t.conversions as real
  }

  lemma {:induction false} TalliesSum(events: seq<Event>, test: string, variants: seq<string>)
    ensures Sum(TalliesOf(events, test, variants), Visitors())
            == SumOfEvents(events, Assigned, test, variants) as real
    ensures Sum(TalliesOf(events, test, variants), Conversions())
            == SumOfEvents(events, Conversion, test, variants) as real
  {
    if variants != [] {
      var init, last := variants[..|variants| - 1], variants[|variants| - 1];
      TalliesSum(events, test, init);
      hide Count;
      SumSnoc(TalliesOf(events, test, init), TallyOf(events, test, last), Visitors());
      SumSnoc(TalliesOf(events, test, init), TallyOf(events, test, last), Conversions());
    }
  }

  /** In runs whose creations cover each other the visitors are the users assigned, and the conversions the calls
      of TrackConversion that succeeded. */
  ghost predicate AddsUp(ops: seq<Op>, test: string, ts: seq<Tally>) {
    Covered(Creates(ops, test)) && (forall vs :: vs in Creates(ops, test) ==> DistinctNames(vs)) ==>
      && Sum(ts, Visitors()) == |Users(Run(ops).events, test)| as real
      && Sum(ts, Conversions()) == Converted(ops, test) as real
  }

  lemma TalliesAddUp(ops: seq<Op>, test: string, row: nat)
    ensures AddsUp(ops, test, TalliesOf(Run(ops).events, test, Reported(Run(ops), test, row)))
  {
    TalliesSum(Run(ops).events, test, Reported(Run(ops), test, row));
    hide Run, Creates, Covered, DistinctNames, Reported, Users, Converted, Sum, SumOfEvents;
    if Covered(Creates(ops, test)) && (forall vs :: vs in Creates(ops, test) ==> DistinctNames(vs)) {
      VisitorsAddUpToUsers(ops, test, row);
      ConversionsAddUp(ops, test, row);
    }
  }

  lemma SortedAddsUp(ops: seq<Op>, test: string, ts: seq<Tally>)
    requires AddsUp(ops, test, ts)
    ensures AddsUp(ops, test, SortBy(ts, Descending()))
  {
    hide *;
    SortSum(ts, Descending(), Visitors());
    SortSum(ts, Descending(), Conversions());
    SameSumsAddUp(ops, test, ts, SortBy(ts, Descending()));
  }

  lemma SameSumsAddUp(ops: seq<Op>, test: string, ts: seq<Tally>, us: seq<Tally>)
    requires AddsUp(ops, test, ts)
    requires Sum(us, Visitors()) == Sum(ts, Visitors()) && Sum(us, Conversions()) == Sum(ts, Conversions())
    ensures AddsUp(ops, test, us)
  {
    hide Run, Creates, Covered, DistinctNames, Users, Converted, Sum;
  }

  function Rate(t: Tally): real {
    WilsonInterval.Rate(t.conversions, t.visitors)
  }

  function Descending(): Tally -> real {
    (t: Tally) => -Rate(t)
  }

  predicate Sufficient(ts: seq<Tally>) {
    forall t :: t in ts ==> t.visitors >= MIN_SAMPLE_SIZE
  }

  /** No variant converts a smaller share of its visitors than a later one. */
  ghost predicate BestFirst(ts: seq<Tally>) {
    forall i, j :: 0 <= i < j < |ts| ==> ts[i].conversions * ts[j].visitors >= ts[j].conversions * ts[i].visitors
  }

  lemma RatesCompare(t: Tally, u: Tally)
    requires t.visitors > 0 && u.visitors > 0
    ensures Rate(t) >= Rate(u) <==> t.conversions * u.visitors >= u.conversions * t.visitors
  {
    var p, q, c, d := t.visitors as real, u.visitors as real, t.conversions as real, u.conversions as real;
    var x, y := Rate(t), Rate(u);
    assert x * p == c && y * q == d;
    assert c * q == x * (p * q) && d * p == y * (p * q);
    assert p * q > 0.0;
    ScaledOrder(x, y, p * q);
    assert (t.conversions * u.visitors) as real == c * q && (u.conversions * t.visitors) as real == d * p;
  }

  lemma ScaledOrder(x: real, y: real, n: real)
    requires n > 0.0
    ensures x >= y <==> x * n >= y * n
  {
    assert (x - y) * n == x * n - y * n;
    if x > y { assert (x - y) * n > 0.0; }
    if x < y { assert (y - x) * n > 0.0; }
  }

  function Converting(rate: real): Tally -> bool {
    (t: Tally) => Rate(t) == rate
  }

  /** Variants that convert equally well come in the same order. */
  ghost predicate TiesAsListed(ts: seq<Tally>, listed: seq<Tally>) {
    forall rate :: Filter(ts, Converting(rate)) == Filter(listed, Converting(rate))
  }

  lemma SortKeepsTies(ts: seq<Tally>)
    ensures TiesAsListed(SortBy(ts, Descending()), ts)
  {
    hide Filter, SortBy, Rate;
    forall rate ensures Filter(SortBy(ts, Descending()), Converting(rate)) == Filter(ts, Converting(rate)) {
      SortStable(ts, Descending(), -rate);
      FilterAgree(ts, WithKey(Descending(), -rate), Converting(rate));
      FilterAgree(SortBy(ts, Descending()), WithKey(Descending(), -rate), Converting(rate));
    }
  }

  lemma SortedIsBestFirst(ts: seq<Tally>)
    requires Sufficient(ts)
    ensures BestFirst(SortBy(ts, Descending())) && multiset(SortBy(ts, Descending())) == multiset(ts)
  {
    SortSorted(ts, Descending());
    SortMultiset(ts, Descending());
    var sorted := SortBy(ts, Descending());
    hide SortBy, Rate;
    forall i, j | 0 <= i < j < |sorted|
      ensures sorted[i].conversions * sorted[j].visitors >= sorted[j].conversions * sorted[i].visitors
    {
      assert Descending()(sorted[i]) == -Rate(sorted[i]) && Descending()(sorted[j]) == -Rate(sorted[j]);
      assert sorted[i] in multiset(ts) && sorted[j] in multiset(ts);
      RatesCompare(sorted[i], sorted[j]);
    }
  }

  /** The same tallies, as listed; or once all variants have 100 visitors, the best converting first. */
  ghost predicate Ranked(ts: seq<Tally>, listed: seq<Tally>) {
    && multiset(ts) == multiset(listed)
    && if forall t :: t in listed ==> t.visitors >= 100 then BestFirst(ts) && TiesAsListed(ts, listed) else ts == listed
  }

  lemma SortedIsRanked(ts: seq<Tally>)
    requires Sufficient(ts)
    ensures Ranked(SortBy(ts, Descending()), ts)
  {
    SortedIsBestFirst(ts);
    SortKeepsTies(ts);
    hide BestFirst, TiesAsListed, SortBy;
  }

  lemma UnsortedIsRanked(ts: seq<Tally>)
    requires !(Sufficient(ts) && |ts| >= 2)
    ensures Ranked(ts, ts)
  {
  }

  lemma {:induction false} CreatesAreAccepted(ops: seq<Op>, test: string)
    ensures forall vs :: vs in Creates(ops, test) ==> Accepts(vs)
  {
    if ops != [] {
      hide Accepts;
      CreatesAreAccepted(ops[..|ops| - 1], test);
    }
  }

  lemma TestIsAccepted(ops: seq<Op>, t: Test)
    requires t in Run(ops).tests
    ensures Accepts(t.variants)
  {
    hide Run, Creates, Accepts;
    TestsAreMade(ops, t.name);
    CreatesAreAccepted(ops, t.name);
  }

  lemma ChosenByHash(vs: seq<Variant>, user: Text)
    requires Accepts(vs)
    ensures exists i: nat :: FirstAbove(vs, Hash(user) % 100, i) && VariantFor(vs, user) == vs[i].name
  {
    AssignedIsFirstAbove(vs, Hash(user) % 100, 0);
  }

  class ABTestService {
    var tests: seq<Test>
    var events: seq<Event>
    ghost var ops: seq<Op>

    ghost predicate Valid()
      reads this
    {
      Run(ops) == State(tests, events)
    }

    constructor ()
      ensures Valid() && ops == []
    {
      tests, events, ops := [], [], [];
    }

    method CreateTest(name: string, variants: seq<Variant>) returns (r: Reply)
      requires Valid()
      modifies this
      ensures Valid() && ops == old(ops) + [Create(name, variants)]
      ensures r == Done <==> -0.01 <= Cumulative(variants, |variants|) - 100.0 <= 0.01
      ensures tests == old(tests) + if r == Done then [Test(name, true, variants)] else []
    {
      RunSnoc(ops, Create(name, variants));
      hide Run;
      ops := ops + [Create(name, variants)];
      var totalTraffic := 0.0;
      for i := 0 to |variants|
        invariant totalTraffic == Cumulative(variants, i)
      {
        totalTraffic := totalTraffic + variants[i].traffic;
      }
      var off := if totalTraffic >= 100.0 then totalTraffic - 100.0 else 100.0 - totalTraffic;
      if off > 0.01 {
        return Failed(TrafficNotOneHundred);
      }
      tests := tests + [Test(name, true, variants)];
      return Done;
    }

    /** Stops one test of the name, active or not. */
    method StopTest(test: string, row: nat) returns (r: Reply)
      requires Valid()
      modifies this
      ensures Valid() && ops == old(ops) + [Stop(test, row)]
      ensures r.Failed? <==> forall t :: t in old(tests) ==> t.name != test
      ensures r.Failed? ==> tests == old(tests)
      ensures !r.Failed? ==>
                exists i :: 0 <= i < |old(tests)| && old(tests)[i].name == test
                  && tests == old(tests)[i := old(tests)[i].(active := false)]
      ensures events == old(events)
    {
      RunSnoc(ops, Stop(test, row));
      FindTestFinds(tests, test, false, row);
      hide Run, FindTest;
      ops := ops + [Stop(test, row)];
      var found := FindTest(tests, test, false, row);
      if found.None? {
        return Failed(NoTest);
      }
      assert tests[found.value] in tests;
      tests := tests[found.value := tests[found.value].(active := false)];
      return Done;
    }

    /** Each variant of the test found, once, with its visitors and conversions: as that test lists them, or
        the best converting first when all have been seen often enough to look for a winner. */
    method GetTestResults(test: string, row: nat) returns (r: Option<seq<Tally>>)
      requires Valid()
      ensures r.None? <==> forall t :: t in tests ==> t.name != test
      ensures r.Some? ==>
                var listed := TalliesOf(events, test, Reported(Run(ops), test, row));
                && (exists t :: t in tests && t.name == test && AreTallies(listed, events, test, t.variants))
                && Ranked(r.value, listed) && AddsUp(ops, test, r.value)
    {
      FindTestFinds(tests, test, false, row);
      var found := FindTest(tests, test, false, row);
      if found.None? {
        return None;
      }
      assert tests[found.value] in tests;
      var names := Names(tests[found.value].variants);
      assert names == Reported(Run(ops), test, row);
      TalliesAre(events, test, tests[found.value].variants);
      TalliesAddUp(ops, test, row);
      hide *;
      var results := CalculateResults(test, names);
      if Sufficient(results) && |results| >= 2 {
        SortedIsRanked(results);
        SortedAddsUp(ops, test, results);
        return Some(SortBy(results, Descending()));
      }
      UnsortedIsRanked(results);
      return Some(results);
    }

    method CalculateResults(test: string, names: seq<string>) returns (results: seq<Tally>)
      ensures results == TalliesOf(events, test, names)
    {
      hide Count, TallyOf;
      results := [];
      for k := 0 to |names|
        invariant results == TalliesOf(events, test, names[..k])
      {
        assert names[..k + 1][..k] == names[..k];
        results := results + [TallyOf(events, test, names[k])];
      }
      assert names[..|names|] == names;
    }

    /** An assigned user gets the variant on record; anyone else the one its hash selects. */
    method AssignUser(user: Text, test: string, row: nat) returns (r: Reply)
      requires Valid()
      modifies this
      ensures Valid() && ops == old(ops) + [Assign(user, test, row)]
      ensures r.Failed? <==> forall t :: t in old(tests) ==> !(t.name == test && t.active)
      ensures !r.Failed? && Current(old(events), user, test).Some? ==>
                r == Chosen(Current(old(events), user, test).value) && events == old(events)
      ensures !r.Failed? && Current(old(events), user, test).None? ==>
                && r.Chosen? && events == old(events) + [Event(user, Assigned, test, r.variant)]
                && exists t, i: nat :: t in old(tests) && t.name == test && t.active
                     && FirstAbove(t.variants, Hash(user) % 100, i) && r.variant == t.variants[i].name
    {
      RunSnoc(ops, Assign(user, test, row));
      FindTestFinds(tests, test, true, row);
      hide Run, FindTest, Current;
      ops := ops + [Assign(user, test, row)];
      var found := FindTest(tests, test, true, row);
      if found.None? {
        return Failed(NoActiveTest);
      }
      assert tests[found.value] in tests;
      var existing := Current(events, user, test);
      if existing.Some? {
        return Chosen(existing.value);
      }
      var variants := tests[found.value].variants;
      var hash := HashString(user);
      var index := AssignVariant(variants, hash % 100);
      var variant := if index.Some? && index.value < |variants| then variants[index.value].name else "";
      assert variant == VariantFor(variants, user);
      TestIsAccepted(old(ops), tests[found.value]);
      ChosenByHash(variants, user);
      events := events + [Event(user, Assigned, test, variant)];
      return Chosen(variant);
    }

    method TrackConversion(user: Text, test: string) returns (r: Reply)
      requires Valid()
      modifies this
      ensures Valid() && ops == old(ops) + [Convert(user, test)]
      ensures r == Failed(NotAssigned) <==> Current(old(events), user, test).None?
      ensures r == Done ==>
                events == old(events) + [Event(user, Conversion, test, Current(old(events), user, test).value)]
    {
      RunSnoc(ops, Convert(user, test));
      ops := ops + [Convert(user, test)];
      var assignment := Current(events, user, test);
      if assignment.None? {
        return Failed(NotAssigned);
      }
      events := events + [Event(user, Conversion, test, assignment.value)];
      return Done;
    }
  }
}
