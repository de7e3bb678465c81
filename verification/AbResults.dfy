/** What the counts of an A/B test mean: when they add up to the users assigned, and exactly when they always do. */
module AbResults {
  import opened AbTests
  import opened Sequences
  import opened StringHash
  import opened TrafficSplit

  // ---- Counts ----

  function EventOf(kind: Kind, test: string, variant: string): Event -> bool {
    (e: Event) => e.kind == kind && e.test == test && e.variant == variant
  }

  function EventOfAny(kind: Kind, test: string, variants: seq<string>): Event -> bool {
    (e: Event) => e.kind == kind && e.test == test && e.variant in variants
  }

  function AnyEvent(kind: Kind, test: string): Event -> bool {
    (e: Event) => e.kind == kind && e.test == test
  }

  /** The events of this kind counted for each variant, added up. */
  function SumOfEvents(events: seq<Event>, kind: Kind, test: string, variants: seq<string>): nat {
    if variants == [] then 0
    else SumOfEvents(events, kind, test, variants[..|variants| - 1])
         + Count(events, EventOf(kind, test, variants[|variants| - 1]))
  }

  function Users(events: seq<Event>, test: string): set<Text> {
    set e | e in events && e.kind == Assigned && e.test == test :: e.user
  }

  lemma {:induction false} SumIsCountOfAny(events: seq<Event>, kind: Kind, test: string, variants: seq<string>)
    requires Distinct(variants)
    ensures SumOfEvents(events, kind, test, variants) == Count(events, EventOfAny(kind, test, variants))
  {
    if variants == [] {
      NoneCounted(events, EventOfAny(kind, test, variants));
    } else {
      var init, last := variants[..|variants| - 1], variants[|variants| - 1];
      SumIsCountOfAny(events, kind, test, init);
      assert variants == init + [last];
      CountDisjoint(events, EventOfAny(kind, test, init), EventOf(kind, test, last), EventOfAny(kind, test, variants));
    }
  }

  /** When no user is assigned twice, the assignments are as many as the users. */
  lemma {:induction false} EachUserCountsOnce(events: seq<Event>, test: string)
    requires forall user :: Count(events, AssignmentOf(user, test)) <= 1
    ensures Count(events, AnyEvent(Assigned, test)) == |Users(events, test)|
  {
    if events == [] {
      assert Users([], test) == {};
    } else {
      var init, e := events[..|events| - 1], events[|events| - 1];
      assert events == init + [e];
      forall user ensures Count(events, AssignmentOf(user, test))
                          == Count(init, AssignmentOf(user, test)) + if AssignmentOf(user, test)(e) then 1 else 0 {
        CountSnoc(init, e, AssignmentOf(user, test));
      }
      EachUserCountsOnce(init, test);
      CountSnoc(init, e, AnyEvent(Assigned, test));
      NewEventAddsUser(init, e, test);
    }
  }

  lemma UsersSnoc(events: seq<Event>, e: Event, test: string)
    ensures Users(events + [e], test) == Users(events, test) + if AnyEvent(Assigned, test)(e) then {e.user} else {}
  {
    assert forall d :: d in events + [e] <==> d in events || d == e;
  }

  lemma UnassignedIsNoUser(events: seq<Event>, user: Text, test: string)
    requires Count(events, AssignmentOf(user, test)) == 0
    ensures user !in Users(events, test)
  {
    FilterMembers(events, AssignmentOf(user, test));
    hide Filter;
    assert forall d :: d in events ==> !AssignmentOf(user, test)(d);
  }

  lemma NewEventAddsUser(events: seq<Event>, e: Event, test: string)
    requires AnyEvent(Assigned, test)(e) ==> Count(events, AssignmentOf(e.user, test)) == 0
    ensures |Users(events + [e], test)| == |Users(events, test)| + if AnyEvent(Assigned, test)(e) then 1 else 0
  {
    hide Users, Count;
    UsersSnoc(events, e, test);
    if AnyEvent(Assigned, test)(e) {
      UnassignedIsNoUser(events, e.user, test);
    }
  }

  function Names(vs: seq<Variant>): (names: seq<string>)
    ensures |names| == |vs| && forall i :: 0 <= i < |vs| ==> names[i] == vs[i].name
  {
    if vs == [] then [] else Names(vs[..|vs| - 1]) + [vs[|vs| - 1].name]
  }

  /** The variants whose counts the results show: those of whichever test of the name is found. */
  function Reported(s: State, test: string, row: nat): seq<string> {
    var i := FindTest(s.tests, test, false, row);
    if i.Some? && i.value < |s.tests| then Names(s.tests[i.value].variants) else []
  }

  /** The reported visitor counts add up to the number of distinct users assigned to the test. */
  ghost predicate SumsUp(s: State, test: string, row: nat) {
    SumOfEvents(s.events, Assigned, test, Reported(s, test, row)) == |Users(s.events, test)|
  }

  ghost predicate DistinctNames(vs: seq<Variant>) {
    forall i, j :: 0 <= i < j < |vs| ==> vs[i].name != vs[j].name
  }

  /** Every variant that a creation can select has a name, and every creation has one of that name. */
  ghost predicate Covered(cs: seq<seq<Variant>>) {
    forall vs, ws, r :: vs in cs && ws in cs && 0 <= r < 100 ==> Selected(vs, r) != "" && Selected(vs, r) in Names(ws)
  }

  lemma CoveredIsNamed(cs: seq<seq<Variant>>, user: Text)
    requires Covered(cs)
    ensures NamedFor(cs, user)
    ensures forall vs, ws :: vs in cs && ws in cs ==> VariantFor(vs, user) in Names(ws)
  {
    HashRange(user);
  }

  lemma CoveredEvent(ops: seq<Op>, test: string, row: nat, e: Event)
    requires Covered(Creates(ops, test)) && e in Run(ops).events && e.kind == Assigned && e.test == test
    ensures e.variant in Reported(Run(ops), test, row)
  {
    AssignmentsAreFromCreations(ops, test, e);
    CoveredIsNamed(Creates(ops, test), e.user);
    FoundIsCreated(ops, test, false, row);
    hide Run, Creates, Covered, FindTest, VariantFor;
  }

  lemma ReportedAreDistinct(ops: seq<Op>, test: string, row: nat)
    requires forall vs :: vs in Creates(ops, test) ==> DistinctNames(vs)
    ensures Distinct(Reported(Run(ops), test, row))
  {
    FoundIsCreated(ops, test, false, row);
    hide Run, Creates, FindTest;
  }

  /** In every run whose creations cover each other, and whichever rows are found, the reported counts add up
      to the users. */
  lemma VisitorsAddUpToUsers(ops: seq<Op>, test: string, row: nat)
    requires Covered(Creates(ops, test)) && forall vs :: vs in Creates(ops, test) ==> DistinctNames(vs)
    ensures SumsUp(Run(ops), test, row)
  {
    ReportedAreDistinct(ops, test, row);
    var events, names := Run(ops).events, Reported(Run(ops), test, row);
    hide Distinct, Run, Creates, Covered, DistinctNames, Reported, Count, Users, SumOfEvents, NamedFor;
    forall user ensures Count(events, AssignmentOf(user, test)) <= 1 {
      CoveredIsNamed(Creates(ops, test), user);
      AtMostOneAssignment(ops, user, test);
    }
    EachUserCountsOnce(events, test);
    SumIsCountOfAny(events, Assigned, test, names);
    forall e | e in events ensures EventOfAny(Assigned, test, names)(e) == AnyEvent(Assigned, test)(e) {
      if AnyEvent(Assigned, test)(e) {
        CoveredEvent(ops, test, row, e);
      }
    }
    SameCount(events, EventOfAny(Assigned, test, names), AnyEvent(Assigned, test));
  }

  /** The calls of TrackConversion for this test that succeeded. */
  function Converted(ops: seq<Op>, test: string): nat {
    if ops == [] then 0
    else
      var init, op := ops[..|ops| - 1], ops[|ops| - 1];
      Converted(init, test) + if op.Convert? && op.test == test && Step(Run(init), op).1 == Done then 1 else 0
  }

  lemma StepConverts(s: State, op: Op, test: string)
    ensures Count(Step(s, op).0.events, AnyEvent(Conversion, test))
            == Count(s.events, AnyEvent(Conversion, test))
               + if op.Convert? && op.test == test && Step(s, op).1 == Done then 1 else 0
  {
    hide Count, Current, FindTest, Accepts, VariantFor;
    var after := Step(s, op).0.events;
    if after != s.events {
      CountSnoc(s.events, after[|s.events|], AnyEvent(Conversion, test));
    }
  }

  lemma {:induction false} ConversionsAreCalls(ops: seq<Op>, test: string)
    ensures Count(Run(ops).events, AnyEvent(Conversion, test)) == Converted(ops, test)
  {
    if ops == [] {
      NoneCounted([], AnyEvent(Conversion, test));
    } else {
      var init, op := ops[..|ops| - 1], ops[|ops| - 1];
      ConversionsAreCalls(init, test);
      StepConverts(Run(init), op, test);
      assert ops == init + [op];
      RunSnoc(init, op);
      hide Run, Step, Count;
    }
  }

  lemma ConversionIsReported(ops: seq<Op>, test: string, row: nat, e: Event)
    requires Covered(Creates(ops, test)) && e in Run(ops).events && e.kind == Conversion && e.test == test
    ensures e.variant in Reported(Run(ops), test, row)
  {
    hide Run, Creates, Covered, Reported, Current;
    ConversionsFollowAssignment(ops, e);
    var assignment := CurrentIsEvent(Run(ops).events, e.user, test);
    CoveredEvent(ops, test, row, assignment);
  }

  /** In such runs the reported conversions are the calls of TrackConversion that succeeded. */
  lemma ConversionsAddUp(ops: seq<Op>, test: string, row: nat)
    requires Covered(Creates(ops, test)) && forall vs :: vs in Creates(ops, test) ==> DistinctNames(vs)
    ensures SumOfEvents(Run(ops).events, Conversion, test, Reported(Run(ops), test, row)) == Converted(ops, test)
  {
    ReportedAreDistinct(ops, test, row);
    ConversionsAreCalls(ops, test);
    var events, names := Run(ops).events, Reported(Run(ops), test, row);
    hide Distinct, Run, Creates, Covered, DistinctNames, Reported, Count, SumOfEvents, Converted;
    SumIsCountOfAny(events, Conversion, test, names);
    forall e | e in events ensures EventOfAny(Conversion, test, names)(e) == AnyEvent(Conversion, test)(e) {
      if AnyEvent(Conversion, test)(e) {
        ConversionIsReported(ops, test, row, e);
      }
    }
    SameCount(events, EventOfAny(Conversion, test, names), AnyEvent(Conversion, test));
  }

  lemma SameCount(events: seq<Event>, p: Event -> bool, q: Event -> bool)
    requires forall e :: e in events ==> p(e) == q(e)
    ensures Count(events, p) == Count(events, q)
  {
    FilterAgree(events, p, q);
  }

  /** In particular whenever all creations of the name carry the same, named variants. */
  lemma SameVariantsAreCovered(cs: seq<seq<Variant>>, all: seq<Variant>)
    requires forall vs :: vs in cs ==> vs == all
    requires Accepts(all) && forall k :: 0 <= k < |all| ==> all[k].name != ""
    ensures Covered(cs)
  {
    forall r | 0 <= r < 100 ensures Selected(all, r) != "" && Selected(all, r) in Names(all) {
      AssignedIsFirstAbove(all, r, 0);
      assert Names(all)[AssignedIndex(all, r, 0)] == Selected(all, r);
    }
  }

  // ---- Exactly when ----

  function CreateAll(cs: seq<seq<Variant>>, test: string): seq<Op> {
    if cs == [] then [] else CreateAll(cs[..|cs| - 1], test) + [Create(test, cs[|cs| - 1])]
  }

  function TestsOf(cs: seq<seq<Variant>>, test: string): (tests: seq<Test>)
    ensures |tests| == |cs| && forall k :: 0 <= k < |cs| ==> tests[k] == Test(test, true, cs[k])
  {
    if cs == [] then [] else TestsOf(cs[..|cs| - 1], test) + [Test(test, true, cs[|cs| - 1])]
  }

  lemma CreateAppends(ops: seq<Op>, vs: seq<Variant>, test: string)
    requires Accepts(vs)
    ensures Run(ops + [Create(test, vs)]) == Run(ops).(tests := Run(ops).tests + [Test(test, true, vs)])
    ensures Creates(ops + [Create(test, vs)], test) == Creates(ops, test) + [vs]
  {
    RunSnoc(ops, Create(test, vs));
    CreatesSnoc(ops, Create(test, vs), test);
  }

  lemma NothingCreated(test: string)
    ensures Run(CreateAll([], test)) == State(TestsOf([], test), []) && Creates(CreateAll([], test), test) == []
  {
  }

  lemma {:induction false} AllCreated(cs: seq<seq<Variant>>, test: string)
    requires forall vs :: vs in cs ==> Accepts(vs)
    ensures Run(CreateAll(cs, test)) == State(TestsOf(cs, test), [])
    ensures Creates(CreateAll(cs, test), test) == cs
  {
    hide Run, Creates, Accepts;
    if cs == [] {
      NothingCreated(test);
    } else {
      var init, vs := cs[..|cs| - 1], cs[|cs| - 1];
      assert cs == init + [vs];
      AllCreated(init, test);
      CreateAppends(CreateAll(init, test), vs, test);
    }
  }

  lemma RowIsFound(cs: seq<seq<Variant>>, test: string, activeOnly: bool, row: nat)
    requires row < |cs|
    ensures FindTest(TestsOf(cs, test), test, activeOnly, row) == Some(row)
  {
  }

  /** Assigning a user none of whose assignments names a variant appends one. */
  lemma AssignAppends(ops: seq<Op>, user: Text, test: string, row: nat, k: nat)
    requires FindTest(Run(ops).tests, test, true, row) == Some(k) && k < |Run(ops).tests|
    requires Current(Run(ops).events, user, test) == None
    ensures var e := Event(user, Assigned, test, VariantFor(Run(ops).tests[k].variants, user));
            Run(ops + [Assign(user, test, row)]) == Run(ops).(events := Run(ops).events + [e])
    ensures Creates(ops + [Assign(user, test, row)], test) == Creates(ops, test)
  {
    RunSnoc(ops, Assign(user, test, row));
    CreatesSnoc(ops, Assign(user, test, row), test);
  }

  lemma CurrentOfUnnamed(e: Event)
    requires e.kind == Assigned
    ensures Current([], e.user, e.test) == None
    ensures Current([e], e.user, e.test) == if e.variant == "" then None else Some(e.variant)
  {
    FilterSnoc([], e, AssignmentOf(e.user, e.test));
    assert [] + [e] == [e];
  }

  function AskFirst(cs: seq<seq<Variant>>, i: nat, user: Text, test: string): seq<Op> {
    CreateAll(cs, test) + [Assign(user, test, i)]
  }

  function AskTwice(cs: seq<seq<Variant>>, i: nat, user: Text, test: string): seq<Op> {
    AskFirst(cs, i, user, test) + [Assign(user, test, i)]
  }

  /** A run with exactly these creations and one assignment, by the `i`-th of them. */
  lemma AssignedOnce(cs: seq<seq<Variant>>, i: nat, user: Text, test: string)
    requires i < |cs| && forall vs :: vs in cs ==> Accepts(vs)
    ensures Creates(AskFirst(cs, i, user, test), test) == cs
    ensures Run(AskFirst(cs, i, user, test))
            == State(TestsOf(cs, test), [Event(user, Assigned, test, VariantFor(cs[i], user))])
  {
    hide Run, Creates, Accepts, VariantFor, FindTest, Current;
    var e := Event(user, Assigned, test, VariantFor(cs[i], user));
    AllCreated(cs, test);
    RowIsFound(cs, test, true, i);
    CurrentOfUnnamed(e);
    AssignAppends(CreateAll(cs, test), user, test, i, i);
    assert [] + [e] == [e];
  }

  /** Asked again, the user is assigned again iff that creation has no name for it. */
  lemma AssignedAgain(cs: seq<seq<Variant>>, i: nat, user: Text, test: string)
    requires i < |cs| && forall vs :: vs in cs ==> Accepts(vs)
    ensures Creates(AskTwice(cs, i, user, test), test) == cs
    ensures var e := Event(user, Assigned, test, VariantFor(cs[i], user));
            Run(AskTwice(cs, i, user, test)) == State(TestsOf(cs, test), if e.variant == "" then [e, e] else [e])
  {
    hide Run, Creates, Accepts, VariantFor, FindTest, Current, AskFirst, TestsOf;
    var first, e := AskFirst(cs, i, user, test), Event(user, Assigned, test, VariantFor(cs[i], user));
    AssignedOnce(cs, i, user, test);
    CurrentOfUnnamed(e);
    if e.variant == "" {
      RowIsFound(cs, test, true, i);
      AssignAppends(first, user, test, i, i);
      Twice(e);
    } else {
      AssignedStays(first, user, test, i);
    }
  }

  lemma Twice<T>(x: T)
    ensures [x] + [x] == [x, x]
  {
  }

  lemma AssignedStays(ops: seq<Op>, user: Text, test: string, row: nat)
    requires Current(Run(ops).events, user, test).Some?
    ensures Run(ops + [Assign(user, test, row)]) == Run(ops)
    ensures Creates(ops + [Assign(user, test, row)], test) == Creates(ops, test)
  {
    RunSnoc(ops, Assign(user, test, row));
    CreatesSnoc(ops, Assign(user, test, row), test);
  }

  lemma OneEventOneUser(e: Event)
    requires e.kind == Assigned
    ensures Count([e], AssignmentOf(e.user, e.test)) == 1
    ensures Users([e], e.test) == {e.user}
  {
    CountSnoc([], e, AssignmentOf(e.user, e.test));
    assert [] + [e] == [e];
    assert [e][0] == e;
  }

  lemma TwoEventsOneUser(e: Event)
    requires e.kind == Assigned
    ensures Count([e, e], AssignmentOf(e.user, e.test)) == 2
    ensures Users([e, e], e.test) == {e.user}
  {
    CountSnoc([], e, AssignmentOf(e.user, e.test));
    CountSnoc([e], e, AssignmentOf(e.user, e.test));
    assert [] + [e] == [e] && [e] + [e] == [e, e];
    assert [e, e][0] == e;
  }

  ghost predicate OneAssignmentInAllRuns(cs: seq<seq<Variant>>, user: Text, test: string) {
    forall ops :: Creates(ops, test) == cs ==> Count(Run(ops).events, AssignmentOf(user, test)) <= 1
  }

  /** Whatever happens to the tests created and whichever is found, the user has at most one assignment event
      iff each of them selects a named variant for it. */
  lemma AtMostOneAssignmentIff(cs: seq<seq<Variant>>, user: Text, test: string)
    requires forall vs :: vs in cs ==> Accepts(vs)
    ensures OneAssignmentInAllRuns(cs, user, test) <==> NamedFor(cs, user)
  {
    hide Run, Creates, Accepts, VariantFor, Count, AskTwice;
    if NamedFor(cs, user) {
      forall ops | Creates(ops, test) == cs ensures Count(Run(ops).events, AssignmentOf(user, test)) <= 1 {
        AtMostOneAssignment(ops, user, test);
      }
    } else {
      var vs :| vs in cs && VariantFor(vs, user) == "";
      var i :| 0 <= i < |cs| && cs[i] == vs;
      AssignedAgain(cs, i, user, test);
      TwoEventsOneUser(Event(user, Assigned, test, ""));
      assert Count(Run(AskTwice(cs, i, user, test)).events, AssignmentOf(user, test)) == 2;
    }
  }

  /** Created once and asked twice: one assignment iff the selected variant is named, else two. */
  lemma AskedTwice(vs: seq<Variant>, user: Text, test: string)
    requires Accepts(vs)
    ensures var events := Run(AskTwice([vs], 0, user, test)).events;
            && Count(events, AssignmentOf(user, test)) == (if VariantFor(vs, user) != "" then 1 else 2)
            && Users(events, test) == {user}
  {
    hide Accepts, VariantFor, Run, Creates, Count, Users, AskTwice;
    var e := Event(user, Assigned, test, VariantFor(vs, user));
    AssignedAgain([vs], 0, user, test);
    OneEventOneUser(e);
    TwoEventsOneUser(e);
  }

  function Only(name: string): seq<Variant> {
    [Variant(name, 100.0)]
  }

  lemma OnlySelects(name: string, user: Text)
    ensures Accepts(Only(name)) && VariantFor(Only(name), user) == name && Names(Only(name)) == [name]
  {
    assert Cumulative(Only(name), 1) == 100.0;
    HashRange(user);
    AssignedIsFirstAbove(Only(name), Hash(user) % 100, 0);
    assert Only(name)[..0] == [];
  }

  /** For instance, a test whose only variant has an empty name counts its users on every call. */
  lemma EmptyNameCountsTwice(user: Text, test: string)
    ensures var events := Run(AskTwice([Only("")], 0, user, test)).events;
            Count(events, AssignmentOf(user, test)) == 2 && |Users(events, test)| == 1
  {
    OnlySelects("", user);
    hide Run, Count, Users, AskTwice, Only, VariantFor, Accepts;
    AskedTwice(Only(""), user, test);
  }

  ghost predicate SumsUpInAllRuns(cs: seq<seq<Variant>>, test: string) {
    forall ops, row :: Creates(ops, test) == cs ==> SumsUp(Run(ops), test, row)
  }

  /** The exact condition on the creations of a name, over the residues of 100, for the reported counts to
      add up to the users in all runs and for all rows found. */
  lemma VisitorsAddUpIff(cs: seq<seq<Variant>>, test: string)
    requires forall vs :: vs in cs ==> Accepts(vs) && DistinctNames(vs)
    ensures SumsUpInAllRuns(cs, test) <==> Covered(cs)
  {
    hide Run, Creates, Accepts, Selected, SumsUp, DistinctNames;
    if Covered(cs) {
      forall ops, row | Creates(ops, test) == cs ensures SumsUp(Run(ops), test, row) {
        VisitorsAddUpToUsers(ops, test, row);
      }
    } else {
      var vs, ws, r :| vs in cs && ws in cs && 0 <= r < 100
                       && !(Selected(vs, r) != "" && Selected(vs, r) in Names(ws));
      var i :| 0 <= i < |cs| && cs[i] == vs;
      var j :| 0 <= j < |cs| && cs[j] == ws;
      var ops := UncoveredRun(cs, i, j, r, test);
      assert !SumsUp(Run(ops), test, j);
    }
  }

  lemma UncoveredRun(cs: seq<seq<Variant>>, i: nat, j: nat, r: int, test: string) returns (ops: seq<Op>)
    requires i < |cs| && j < |cs| && forall vs :: vs in cs ==> Accepts(vs) && DistinctNames(vs)
    requires 0 <= r < 100 && !(Selected(cs[i], r) != "" && Selected(cs[i], r) in Names(cs[j]))
    ensures Creates(ops, test) == cs && !SumsUp(Run(ops), test, j)
  {
    var user: Text := [r];
    HashOne(r);
    assert VariantFor(cs[i], user) == Selected(cs[i], r);
    assert DistinctNames(cs[j]);
    hide Run, Creates, Accepts, Selected, VariantFor, SumOfEvents, Users, Count, FindTest, AskTwice;
    var e := Event(user, Assigned, test, VariantFor(cs[i], user));
    AssignedAgain(cs, i, user, test);
    RowIsFound(cs, test, false, j);
    ops := AskTwice(cs, i, user, test);
    CountedNotOnce(Run(ops).events, e, Names(cs[j]));
  }

  lemma CountedNotOnce(events: seq<Event>, e: Event, names: seq<string>)
    requires e.kind == Assigned && (events == [e, e] || (events == [e] && e.variant !in names))
    requires Distinct(names)
    ensures SumOfEvents(events, Assigned, e.test, names) != 1 && |Users(events, e.test)| == 1
  {
    hide SumOfEvents, Users, Count;
    SumIsCountOfAny(events, Assigned, e.test, names);
    OneEventOneUser(e);
    TwoEventsOneUser(e);
    CountOnceOrTwice(e, EventOfAny(Assigned, e.test, names));
  }

  lemma CountOnceOrTwice(e: Event, p: Event -> bool)
    ensures Count([e], p) == (if p(e) then 1 else 0) && Count([e, e], p) == if p(e) then 2 else 0
  {
    assert [] + [e] == [e] && [e] + [e] == [e, e];
    CountSnoc([], e, p);
    CountSnoc([e], e, p);
    NoneCounted([], p);
    hide Count;
  }

  /** A test stopped and created again under its name with another variant; whichever rows are found, the
      user asked afterwards is assigned by the second. */
  function Recreation(user: Text, test: string, stopped: nat, found: nat): seq<Op> {
    [] + [Create(test, Only("A"))] + [Stop(test, stopped)] + [Create(test, Only("B"))] + [Assign(user, test, found)]
  }

  lemma FindTestTwo(t: Test, u: Test, name: string, activeOnly: bool, row: nat)
    ensures Eligible(name, activeOnly)(t) ==> FindTest([t], name, activeOnly, row) == Some(0)
    ensures !Eligible(name, activeOnly)(t) && Eligible(name, activeOnly)(u) ==>
              FindTest([t, u], name, activeOnly, row) == Some(1)
    ensures Eligible(name, activeOnly)(t) ==> FindTest([t, u], name, activeOnly, 0) == Some(0)
  {
    assert [t][..0] == [] && [t, u][..1] == [t];
    assert FirstEligible([t], name, activeOnly) == if Eligible(name, activeOnly)(t) then Some(0) else None;
    assert Eligible(name, activeOnly)(t) ==> FirstEligible([t, u], name, activeOnly) == Some(0);
    assert !Eligible(name, activeOnly)(t) && Eligible(name, activeOnly)(u) ==>
        FirstEligible([t, u], name, activeOnly) == Some(1);
  }

  lemma StopStops(ops: seq<Op>, t: Test, test: string, row: nat)
    requires Run(ops).tests == [t] && t.name == test
    ensures Run(ops + [Stop(test, row)]) == Run(ops).(tests := [t.(active := false)])
  {
    FindTestTwo(t, t, test, false, row);
    hide Run, FindTest;
    RunSnoc(ops, Stop(test, row));
    assert [t][0 := t.(active := false)] == [t.(active := false)];
  }

  lemma NoTests()
    ensures Run([]) == State([], [])
  {
  }

  lemma CreatedFirst(test: string, vs: seq<Variant>)
    requires Accepts(vs)
    ensures Run([] + [Create(test, vs)]) == State([Test(test, true, vs)], [])
  {
    hide *;
    NoTests();
    CreateAppends([], vs, test);
    assert [] + [Test(test, true, vs)] == [Test(test, true, vs)];
  }

  lemma CreatedAgain(ops: seq<Op>, t: Test, test: string, vs: seq<Variant>)
    requires Accepts(vs) && Run(ops) == State([t], [])
    ensures Run(ops + [Create(test, vs)]) == State([t, Test(test, true, vs)], [])
  {
    hide *;
    CreateAppends(ops, vs, test);
    assert [t] + [Test(test, true, vs)] == [t, Test(test, true, vs)];
  }

  lemma RecreationTests(test: string, stopped: nat)
    ensures Run([] + [Create(test, Only("A"))] + [Stop(test, stopped)] + [Create(test, Only("B"))])
            == State([Test(test, false, Only("A")), Test(test, true, Only("B"))], [])
  {
    hide *;
    OnlySelects("A", []);
    OnlySelects("B", []);
    var one, t := [] + [Create(test, Only("A"))], Test(test, true, Only("A"));
    CreatedFirst(test, Only("A"));
    StopStops(one, t, test, stopped);
    CreatedAgain(one + [Stop(test, stopped)], t.(active := false), test, Only("B"));
  }

  lemma RecreationRun(user: Text, test: string, stopped: nat, found: nat)
    ensures Run(Recreation(user, test, stopped, found))
            == State([Test(test, false, Only("A")), Test(test, true, Only("B"))], [Event(user, Assigned, test, "B")])
  {
    OnlySelects("B", user);
    RecreationTests(test, stopped);
    var t, u, e := Test(test, false, Only("A")), Test(test, true, Only("B")), Event(user, Assigned, test, "B");
    FindTestTwo(t, u, test, true, found);
    CurrentOfUnnamed(e);
    hide Run, Creates, Accepts, VariantFor, FindTest, Only, Current;
    AssignAppends([] + [Create(test, Only("A"))] + [Stop(test, stopped)] + [Create(test, Only("B"))],
                  user, test, found, 1);
    assert [] + [e] == [e];
  }

  /** The condition fails there: the user is assigned, and the counts reported from the first of the two tests
      do not show it. */
  lemma RecreationLosesVisitors(user: Text, test: string, stopped: nat, found: nat)
    ensures var s := Run(Recreation(user, test, stopped, found));
            && Users(s.events, test) == {user} && Reported(s, test, 0) == ["A"]
            && SumOfEvents(s.events, Assigned, test, ["A"]) == 0
  {
    hide Run, Users, SumOfEvents, Only, Recreation, Reported, Count;
    RecreationRun(user, test, stopped, found);
    ReportedFromFirst(user, test, [Event(user, Assigned, test, "B")]);
    NotCounted(Event(user, Assigned, test, "B"), "A");
  }

  lemma ReportedFromFirst(user: Text, test: string, events: seq<Event>)
    ensures Reported(State([Test(test, false, Only("A")), Test(test, true, Only("B"))], events), test, 0) == ["A"]
  {
    OnlySelects("A", user);
    hide Only, Accepts, VariantFor, FirstEligible;
  }

  lemma NotCounted(e: Event, name: string)
    requires e.kind == Assigned && e.variant != name
    ensures SumOfEvents([e], Assigned, e.test, [name]) == 0 && Users([e], e.test) == {e.user}
  {
    hide SumOfEvents, Users, Count;
    OneEventOneUser(e);
    SumIsCountOfAny([e], Assigned, e.test, [name]);
    CountOnceOrTwice(e, EventOfAny(Assigned, e.test, [name]));
  }
}
