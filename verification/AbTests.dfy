/** A/B tests over the event store: who is assigned to which variant. Names of tests are not unique, and a
    look-up by name says nothing about which of several rows it returns: the operations carry that choice. */
module AbTests {
  import opened Sequences
  import opened StringHash
  import opened TrafficSplit

  datatype Kind = Assigned | Conversion

  datatype Event = Event(user: Text, kind: Kind, test: string, variant: string)

  datatype Test = Test(name: string, active: bool, variants: seq<Variant>)

  datatype State = State(tests: seq<Test>, events: seq<Event>)

  /** `row` is the row that the operation's look-up returns, if that row may be returned. */
  datatype Op =
    | Create(name: string, variants: seq<Variant>)
    | Assign(user: Text, test: string, row: nat)
    | Convert(user: Text, test: string)
    | Stop(test: string, row: nat)

  datatype Error = TrafficNotOneHundred | NoActiveTest | NoTest | NotAssigned

  datatype Reply = Done | Chosen(variant: string) | Failed(error: Error)

  function Eligible(name: string, activeOnly: bool): Test -> bool {
    (t: Test) => t.name == name && (activeOnly ==> t.active)
  }

  function FirstEligible(tests: seq<Test>, name: string, activeOnly: bool): Option<nat> {
    if tests == [] then None
    else
      var earlier := FirstEligible(tests[..|tests| - 1], name, activeOnly);
      if earlier.Some? then earlier
      else if Eligible(name, activeOnly)(tests[|tests| - 1]) then Some(|tests| - 1)
      else None
  }

  /** Any test of this name, among active ones only if asked: `row`, or the first if `row` is not one. */
  function FindTest(tests: seq<Test>, name: string, activeOnly: bool, row: nat): Option<nat> {
    if row < |tests| && Eligible(name, activeOnly)(tests[row]) then Some(row)
    else FirstEligible(tests, name, activeOnly)
  }

  lemma {:induction false} FirstIsEligible(tests: seq<Test>, name: string, activeOnly: bool)
    ensures var i := FirstEligible(tests, name, activeOnly);
            if i.Some? then i.value < |tests| && Eligible(name, activeOnly)(tests[i.value])
            else forall j :: 0 <= j < |tests| ==> !Eligible(name, activeOnly)(tests[j])
  {
    if tests != [] {
      FirstIsEligible(tests[..|tests| - 1], name, activeOnly);
    }
  }

  /** A look-up finds an eligible test, whichever it is, unless there is none. */
  lemma FindTestFinds(tests: seq<Test>, name: string, activeOnly: bool, row: nat)
    ensures var i := FindTest(tests, name, activeOnly, row);
            if i.Some? then i.value < |tests| && Eligible(name, activeOnly)(tests[i.value])
            else forall j :: 0 <= j < |tests| ==> !Eligible(name, activeOnly)(tests[j])
  {
    FirstIsEligible(tests, name, activeOnly);
  }

  function AssignmentOf(user: Text, test: string): Event -> bool {
    (e: Event) => e.kind == Assigned && e.user == user && e.test == test
  }

  /** The variant of the latest assignment of this user; an empty name counts as none. */
  function Current(events: seq<Event>, user: Text, test: string): Option<string> {
    var mine := Filter(events, AssignmentOf(user, test));
    if mine == [] || mine[|mine| - 1].variant == "" then None else Some(mine[|mine| - 1].variant)
  }

  /** The name a residue of 100 selects. */
  function Selected(vs: seq<Variant>, residue: int): string {
    var i := AssignedIndex(vs, residue, 0);
    if i < |vs| then vs[i].name else ""
  }

  function VariantFor(vs: seq<Variant>, user: Text): string {
    Selected(vs, Hash(user) % 100)
  }

  function Step(s: State, op: Op): (State, Reply) {
    match op
    case Create(name, variants) =>
      if !Accepts(variants) then (s, Failed(TrafficNotOneHundred))
      else (s.(tests := s.tests + [Test(name, true, variants)]), Done)
    case Assign(user, test, row) =>
      var i := FindTest(s.tests, test, true, row);
      if i.None? || i.value >= |s.tests| then (s, Failed(NoActiveTest))
      else
        var existing := Current(s.events, user, test);
        if existing.Some? then (s, Chosen(existing.value))
        else
          var variant := VariantFor(s.tests[i.value].variants, user);
          (s.(events := s.events + [Event(user, Assigned, test, variant)]), Chosen(variant))
    case Convert(user, test) =>
      var existing := Current(s.events, user, test);
      if existing.None? then (s, Failed(NotAssigned))
      else (s.(events := s.events + [Event(user, Conversion, test, existing.value)]), Done)
    case Stop(test, row) =>
      var i := FindTest(s.tests, test, false, row);
      if i.None? || i.value >= |s.tests| then (s, Failed(NoTest))
      else (s.(tests := s.tests[i.value := s.tests[i.value].(active := false)]), Done)
  }

  function Run(ops: seq<Op>): State {
    if ops == [] then State([], []) else Step(Run(ops[..|ops| - 1]), ops[|ops| - 1]).0
  }

  lemma RunSnoc(ops: seq<Op>, op: Op)
    ensures Run(ops + [op]) == Step(Run(ops), op).0
  {
    assert (ops + [op])[..|ops|] == ops;
  }

  /** What an operation may append to the event store. */
  ghost predicate Appends(before: seq<Event>, after: seq<Event>) {
    after == before
    || (after != [] && after == before + [after[|after| - 1]]
        && var e := after[|after| - 1];
           Current(before, e.user, e.test) == if e.kind == Assigned then None else Some(e.variant))
  }

  lemma StepAppends(s: State, op: Op)
    ensures Appends(s.events, Step(s, op).0.events)
  {
  }

  // ---- Tests of the same name ----

  /** The variants of every accepted creation of a test of this name, in order. */
  function Creates(ops: seq<Op>, test: string): seq<seq<Variant>> {
    if ops == [] then []
    else
      var op := ops[|ops| - 1];
      Creates(ops[..|ops| - 1], test)
      + if op.Create? && op.name == test && Accepts(op.variants) then [op.variants] else []
  }

  lemma CreatesSnoc(ops: seq<Op>, op: Op, test: string)
    ensures Creates(ops + [op], test)
            == Creates(ops, test) + if op.Create? && op.name == test && Accepts(op.variants) then [op.variants] else []
  {
    assert (ops + [op])[..|ops|] == ops;
  }

  /** The tests of one name are exactly those created under it. */
  ghost predicate Made(tests: seq<Test>, test: string, cs: seq<seq<Variant>>) {
    && (forall t :: t in tests && t.name == test ==> t.variants in cs)
    && (cs != [] ==> exists t :: t in tests && t.name == test)
  }

  lemma StopKeepsMade(tests: seq<Test>, i: nat, test: string, cs: seq<seq<Variant>>)
    requires Made(tests, test, cs) && i < |tests|
    ensures Made(tests[i := tests[i].(active := false)], test, cs)
  {
    var after := tests[i := tests[i].(active := false)];
    forall t | t in after && t.name == test ensures t.variants in cs {
      var k :| 0 <= k < |after| && after[k] == t;
      assert tests[k] in tests && tests[k].variants == t.variants && tests[k].name == t.name;
    }
    if cs != [] {
      var t :| t in tests && t.name == test;
      var k :| 0 <= k < |tests| && tests[k] == t;
      assert after[k] in after && after[k].name == test;
    }
  }

  lemma CreateKeepsMade(tests: seq<Test>, t: Test, test: string, cs: seq<seq<Variant>>)
    requires Made(tests, test, cs)
    ensures Made(tests + [t], test, cs + if t.name == test then [t.variants] else [])
  {
    var after, cs' := tests + [t], cs + if t.name == test then [t.variants] else [];
    assert t in after;
    assert forall u :: u in after ==> u in tests || u == t;
    assert forall vs :: vs in cs ==> vs in cs';
    if t.name == test {
      assert t.variants in cs';
    } else if cs' != [] {
      var u :| u in tests && u.name == test;
      assert u in after;
    }
  }

  lemma StepKeepsMade(s: State, op: Op, test: string, cs: seq<seq<Variant>>)
    requires Made(s.tests, test, cs)
    ensures Made(Step(s, op).0.tests, test,
                 cs + if op.Create? && op.name == test && Accepts(op.variants) then [op.variants] else [])
  {
    assert cs + [] == cs;
    hide FindTest, Current, VariantFor, Accepts, Made;
    match op
    case Create(name, variants) =>
      if Accepts(variants) {
        CreateKeepsMade(s.tests, Test(name, true, variants), test, cs);
      }
    case Stop(stopped, row) =>
      var i := FindTest(s.tests, stopped, false, row);
      if i.Some? && i.value < |s.tests| {
        StopKeepsMade(s.tests, i.value, test, cs);
      }
    case Assign(_, _, _) =>
    case Convert(_, _) =>
  }

  lemma NoTestsYet(test: string)
    ensures Made(Run([]).tests, test, Creates([], test))
  {
  }

  lemma {:induction false} TestsAreMade(ops: seq<Op>, test: string)
    ensures Made(Run(ops).tests, test, Creates(ops, test))
  {
    hide *;
    if ops == [] {
      NoTestsYet(test);
    } else {
      var init, op := ops[..|ops| - 1], ops[|ops| - 1];
      TestsAreMade(init, test);
      assert ops == init + [op];
      RunSnoc(init, op);
      CreatesSnoc(init, op, test);
      StepKeepsMade(Run(init), op, test, Creates(init, test));
    }
  }

  /** Whatever row a look-up returns, it is one created under the name. */
  lemma FoundIsCreated(ops: seq<Op>, test: string, activeOnly: bool, row: nat)
    ensures var tests, i := Run(ops).tests, FindTest(Run(ops).tests, test, activeOnly, row);
            i.Some? ==> i.value < |tests| && tests[i.value].variants in Creates(ops, test)
    ensures FindTest(Run(ops).tests, test, false, row).None? ==> Creates(ops, test) == []
  {
    TestsAreMade(ops, test);
    FindTestFinds(Run(ops).tests, test, activeOnly, row);
    FindTestFinds(Run(ops).tests, test, false, row);
    hide Run, Creates, FindTest;
    var tests, i := Run(ops).tests, FindTest(Run(ops).tests, test, activeOnly, row);
    if i.Some? {
      assert tests[i.value] in tests;
    }
  }

  ghost predicate FromCreation(cs: seq<seq<Variant>>, e: Event) {
    exists vs :: vs in cs && e.variant == VariantFor(vs, e.user)
  }

  lemma FromMore(cs: seq<seq<Variant>>, more: seq<seq<Variant>>, e: Event)
    requires FromCreation(cs, e)
    ensures FromCreation(cs + more, e)
  {
    var vs :| vs in cs && e.variant == VariantFor(vs, e.user);
    assert vs in cs + more;
  }

  lemma AssignedFromCreation(ops: seq<Op>, op: Op, e: Event)
    requires e in Step(Run(ops), op).0.events && e !in Run(ops).events && e.kind == Assigned
    ensures FromCreation(Creates(ops, e.test), e)
  {
    hide Run, Creates, Current, VariantFor, Accepts, FindTest;
    if op.Assign? {
      FoundIsCreated(ops, op.test, true, op.row);
    }
  }

  lemma {:induction false} AssignmentsAreFromCreations(ops: seq<Op>, test: string, e: Event)
    requires e in Run(ops).events && e.kind == Assigned && e.test == test
    ensures FromCreation(Creates(ops, test), e)
  {
    var init, op := ops[..|ops| - 1], ops[|ops| - 1];
    assert ops == init + [op];
    RunSnoc(init, op);
    CreatesSnoc(init, op, test);
    hide Run, Creates, Step, FromCreation, Accepts;
    if e in Run(init).events {
      AssignmentsAreFromCreations(init, test, e);
    } else {
      AssignedFromCreation(init, op, e);
    }
    FromMore(Creates(init, test), Creates(ops, test)[|Creates(init, test)|..], e);
    assert Creates(ops, test) == Creates(init, test) + Creates(ops, test)[|Creates(init, test)|..];
  }

  // ---- One variant per user ----

  /** Every creation has a name for this user. */
  ghost predicate NamedFor(cs: seq<seq<Variant>>, user: Text) {
    forall vs :: vs in cs ==> VariantFor(vs, user) != ""
  }

  lemma UnassignedMeansNoEvent(events: seq<Event>, user: Text, test: string)
    requires forall e :: e in events && AssignmentOf(user, test)(e) ==> e.variant != ""
    ensures Current(events, user, test) == None <==> Count(events, AssignmentOf(user, test)) == 0
  {
    var mine := Filter(events, AssignmentOf(user, test));
    FilterMembers(events, AssignmentOf(user, test));
    if mine != [] {
      assert mine[|mine| - 1] in mine;
    }
  }

  lemma EventsAreNamed(ops: seq<Op>, user: Text, test: string)
    requires NamedFor(Creates(ops, test), user)
    ensures forall e :: e in Run(ops).events && AssignmentOf(user, test)(e) ==> e.variant != ""
  {
    hide Run, Creates, VariantFor;
    forall e | e in Run(ops).events && AssignmentOf(user, test)(e) ensures e.variant != "" {
      AssignmentsAreFromCreations(ops, test, e);
    }
  }

  lemma NamedBefore(ops: seq<Op>, op: Op, user: Text, test: string)
    requires NamedFor(Creates(ops + [op], test), user)
    ensures NamedFor(Creates(ops, test), user)
  {
    CreatesSnoc(ops, op, test);
    hide Creates, VariantFor, Accepts;
    assert forall vs :: vs in Creates(ops, test) ==> vs in Creates(ops + [op], test);
  }

  lemma NoAssignmentYet(user: Text, test: string)
    ensures Count(Run([]).events, AssignmentOf(user, test)) == 0
  {
  }

  /** A user for whom every creation selects a named variant has at most one assignment event per test,
      whatever tests are created, stopped and created again under the same name, and whichever is found. */
  lemma {:induction false} AtMostOneAssignment(ops: seq<Op>, user: Text, test: string)
    requires NamedFor(Creates(ops, test), user)
    ensures Count(Run(ops).events, AssignmentOf(user, test)) <= 1
  {
    hide Step, Run, Current, Creates, NamedFor, Count, Filter;
    if ops == [] {
      NoAssignmentYet(user, test);
    } else {
      var init, op := ops[..|ops| - 1], ops[|ops| - 1];
      assert ops == init + [op];
      RunSnoc(init, op);
      var s, t := Run(init), Run(ops);
      StepAppends(s, op);
      NamedBefore(init, op, user, test);
      AtMostOneAssignment(init, user, test);
      EventsAreNamed(init, user, test);
      UnassignedMeansNoEvent(s.events, user, test);
      if t.events != s.events {
        CountSnoc(s.events, t.events[|t.events| - 1], AssignmentOf(user, test));
      }
    }
  }

  /** Event `k` assigns the user, and no later one does. */
  ghost predicate IsLatest(events: seq<Event>, user: Text, test: string, k: nat) {
    && k < |events| && events[k].kind == Assigned && events[k].user == user && events[k].test == test
    && forall j :: k < j < |events| ==>
         !(events[j].kind == Assigned && events[j].user == user && events[j].test == test)
  }

  /** The variant on record is that of the latest assignment, if it names one. */
  lemma {:induction false} CurrentIsLatest(events: seq<Event>, user: Text, test: string, variant: string)
    ensures Current(events, user, test) == Some(variant)
            <==> variant != "" && exists k: nat :: IsLatest(events, user, test, k) && events[k].variant == variant
  {
    if events != [] {
      var init, last := events[..|events| - 1], events[|events| - 1];
      assert events == init + [last];
      FilterSnoc(init, last, AssignmentOf(user, test));
      hide Filter;
      CurrentIsLatest(init, user, test, variant);
      if AssignmentOf(user, test)(last) {
        assert IsLatest(events, user, test, |init|);
      } else {
        assert forall k: nat :: IsLatest(events, user, test, k) <==> IsLatest(init, user, test, k);
      }
    }
  }

  lemma CurrentIsEvent(events: seq<Event>, user: Text, test: string) returns (e: Event)
    requires Current(events, user, test).Some?
    ensures e in events && e == Event(user, Assigned, test, Current(events, user, test).value)
  {
    var mine := Filter(events, AssignmentOf(user, test));
    FilterMembers(events, AssignmentOf(user, test));
    e := mine[|mine| - 1];
    assert e in mine;
  }

  /** Once assigned, a user keeps the variant in every continuation. */
  lemma {:induction false} AssignmentSticks(ops: seq<Op>, more: seq<Op>, user: Text, test: string)
    requires Current(Run(ops).events, user, test).Some?
    ensures Current(Run(ops + more).events, user, test) == Current(Run(ops).events, user, test)
  {
    if more == [] {
      assert ops + more == ops;
    } else {
      var init, op := more[..|more| - 1], more[|more| - 1];
      AssignmentSticks(ops, init, user, test);
      assert ops + more == (ops + init) + [op];
      RunSnoc(ops + init, op);
      var s, t := Run(ops + init), Run(ops + more);
      StepAppends(s, op);
      hide Step;
      if t.events != s.events {
        FilterSnoc(s.events, t.events[|s.events|], AssignmentOf(user, test));
      }
    }
  }

  /** Every conversion is booked on the variant its user is assigned to, for good. */
  lemma {:induction false} ConversionsFollowAssignment(ops: seq<Op>, e: Event)
    requires e in Run(ops).events && e.kind == Conversion
    ensures Current(Run(ops).events, e.user, e.test) == Some(e.variant)
  {
    var init, op := ops[..|ops| - 1], ops[|ops| - 1];
    assert ops == init + [op];
    var s := Run(init);
    StepAppends(s, op);
    hide Step;
    if e in s.events {
      ConversionsFollowAssignment(init, e);
      AssignmentSticks(init, [op], e.user, e.test);
    } else {
      assert Run(ops).events == s.events + [e];
      FilterSnoc(s.events, e, AssignmentOf(e.user, e.test));
    }
  }
}
