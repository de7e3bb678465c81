/** Redemptions that overlap: a redemption reads the reward and, if it may be redeemed, later updates its
    status by its id alone. In between, anything else may happen. */
module RewardOverlap {
  import opened Sequences
  import R = RewardStatus

  /** `Read` and `Write` are the two awaited steps of one redemption; everything else is one step. */
  datatype Event = Read(now: int, call: nat, id: nat) | Write(call: nat) | Whole(event: R.Event)

  /** `passed` holds the redemptions whose read allowed them and whose update is still to come. */
  datatype State = State(rewards: R.Rewards, passed: map<nat, nat>)

  function Step(s: State, e: Event): State {
    match e
    case Read(now, call, id) =>
      if R.Refuse(s.rewards, now, id).None? then s.(passed := s.passed[call := id]) else s
    case Write(call) =>
      if Writes(s, call) then
        var id := s.passed[call];
        State(s.rewards[id := s.rewards[id].(status := R.Redeemed)], s.passed - {call})
      else s
    case Whole(event) => s.(rewards := R.Step(s.rewards, event).0)
  }

  predicate Writes(s: State, call: nat) {
    call in s.passed && s.passed[call] < |s.rewards|
  }

  function Run(es: seq<Event>): State {
    if es == [] then State([], map[]) else Step(Run(es[..|es| - 1]), es[|es| - 1])
  }

  /** A redemption that nothing overlaps is one step. */
  lemma ReadThenWriteIsRedeem(s: State, now: int, call: nat, id: nat)
    requires call !in s.passed
    ensures var t := Step(Step(s, Read(now, call, id)), Write(call));
            t.passed == s.passed && t.rewards == R.Step(s.rewards, R.Redeem(now, id)).0
  {
    if R.Refuse(s.rewards, now, id).None? {
      assert s.passed[call := id] - {call} == s.passed;
    }
  }

  // ---- What overtakes a redemption ----

  /** The event closes reward `id` if it is still active: another redemption of it, or a sweep past its expiry. */
  predicate Closes(s: State, e: Event, id: nat)
    requires id < |s.rewards|
  {
    match e
    case Read(_, _, _) => false
    case Write(call) => Writes(s, call) && s.passed[call] == id
    case Whole(event) =>
      (event.Redeem? && event.id == id && !R.Overdue(s.rewards[id], event.now))
      || (event.Sweep? && R.Overdue(s.rewards[id], event.now))
  }

  /** The redemption reads its reward, and may go on. */
  predicate Reads(s: State, e: Event, call: nat) {
    e.Read? && e.call == call && R.Refuse(s.rewards, e.now, e.id).None?
  }

  predicate OvertakenAfter(s: State, e: Event, call: nat, before: bool) {
    Writes(s, call) && !Reads(s, e, call) && e != Write(call) && (before || Closes(s, e, s.passed[call]))
  }

  /** Since the redemption last read its reward, something has closed it. */
  predicate Overtaken(es: seq<Event>, call: nat) {
    es != [] && OvertakenAfter(Run(es[..|es| - 1]), es[|es| - 1], call, Overtaken(es[..|es| - 1], call))
  }

  /** What is known of a redemption in flight: its reward is active iff nothing has overtaken it, and
      otherwise it is redeemed or expired already. */
  ghost predicate Tracked(s: State, call: nat, overtaken: bool) {
    call in s.passed ==>
      && s.passed[call] < |s.rewards|
      && (if overtaken then s.rewards[s.passed[call]].status in {R.Redeemed, R.Expired}
          else s.rewards[s.passed[call]].status == R.Active)
  }

  lemma StepTracks(s: State, e: Event, call: nat, before: bool)
    requires Tracked(s, call, before)
    ensures Tracked(Step(s, e), call, OvertakenAfter(s, e, call, before))
  {
  }

  lemma {:induction false} ActiveIffNotOvertaken(es: seq<Event>, call: nat)
    ensures Tracked(Run(es), call, Overtaken(es, call))
  {
    if es != [] {
      ActiveIffNotOvertaken(es[..|es| - 1], call);
      StepTracks(Run(es[..|es| - 1]), es[|es| - 1], call, Overtaken(es[..|es| - 1], call));
      hide Tracked, OvertakenAfter, Step;
    }
  }

  // ---- Balance ----

  function Granted1(e: Event): nat {
    if e.Whole? && e.event.Grant? then 1 else 0
  }

  /** A redemption succeeds with its update. */
  function Used1(s: State, e: Event): nat {
    match e
    case Read(_, _, _) => 0
    case Write(call) => if Writes(s, call) then 1 else 0
    case Whole(event) => R.Used1(R.Step(s.rewards, event).1)
  }

  function Swept1(s: State, e: Event): nat {
    if e.Whole? then R.Swept1(R.Step(s.rewards, e.event).1) else 0
  }

  function Late1(s: State, e: Event, overtaken: bool): nat {
    if e.Write? && Writes(s, e.call) && overtaken then 1 else 0
  }

  /** Rewards granted, redemptions that succeeded, expiries reported by sweeps, and redemptions that succeeded
      although they had been overtaken. */
  datatype Counts = Counts(granted: nat, used: nat, swept: nat, late: nat)

  function CountsOf(es: seq<Event>): Counts {
    if es == [] then Counts(0, 0, 0, 0)
    else
      var init, e := es[..|es| - 1], es[|es| - 1];
      var c, s := CountsOf(init), Run(init);
      Counts(c.granted + Granted1(e), c.used + Used1(s, e), c.swept + Swept1(s, e),
             c.late + Late1(s, e, e.Write? && Overtaken(init, e.call)))
  }

  ghost predicate Accounts(s: State, c: Counts) {
    && c.granted == |s.rewards|
    && Count(s.rewards, R.HasStatus(R.Redeemed)) + Count(s.rewards, R.HasStatus(R.Expired)) + c.late == c.used + c.swept
  }

  lemma StepAccounts(s: State, e: Event, c: Counts, overtaken: bool)
    requires Accounts(s, c) && (e.Write? ==> Tracked(s, e.call, overtaken))
    ensures Accounts(Step(s, e), Counts(c.granted + Granted1(e), c.used + Used1(s, e), c.swept + Swept1(s, e),
                                        c.late + Late1(s, e, overtaken)))
  {
    hide Count, R.Expire, R.ShownIds, R.Refuse;
    match e
    case Read(_, _, _) =>
    case Write(call) =>
      if Writes(s, call) {
        var id := s.passed[call];
        var after := s.rewards[id].(status := R.Redeemed);
        CountUpdate(s.rewards, id, after, R.HasStatus(R.Redeemed));
        CountUpdate(s.rewards, id, after, R.HasStatus(R.Expired));
      }
    case Whole(event) =>
      R.StepBalances(s.rewards, event);
      hide R.Step;
  }

  lemma NothingAccounts()
    ensures Accounts(Run([]), CountsOf([]))
  {
  }

  lemma {:induction false} AlwaysAccounts(es: seq<Event>)
    ensures Accounts(Run(es), CountsOf(es))
  {
    if es == [] {
      NothingAccounts();
    } else {
      hide Accounts, Step, Overtaken, Granted1, Used1, Swept1, Late1, Tracked;
      var init, e := es[..|es| - 1], es[|es| - 1];
      AlwaysAccounts(init);
      if e.Write? {
        ActiveIffNotOvertaken(init, e.call);
      }
      StepAccounts(Run(init), e, CountsOf(init), e.Write? && Overtaken(init, e.call));
    }
  }

  /** In every run, overlapping or not, every redemption that had been overtaken counts a reward once more
      than it should. */
  lemma LateRedemptionsCountTwice(es: seq<Event>)
    ensures var c := CountsOf(es);
            c.granted + c.late == c.used + c.swept + Count(Run(es).rewards, R.Open())
  {
    AlwaysAccounts(es);
    R.EveryRewardIsSomewhere(Run(es).rewards);
    hide Run, CountsOf, Count;
  }

  /** So the rewards granted are those redeemed, those expired and those still open, iff no redemption was
      overtaken between its read and its update. */
  lemma BalanceIffNoneLate(es: seq<Event>)
    ensures var c := CountsOf(es);
            c.granted == c.used + c.swept + Count(Run(es).rewards, R.Open()) <==> c.late == 0
  {
    LateRedemptionsCountTwice(es);
    hide Run, CountsOf, Count;
  }

  /** The state, the counts, and whether redemptions 0 and 1 have been overtaken. */
  datatype Trace = Trace(s: State, c: Counts, first: bool, second: bool)

  function TraceOf(es: seq<Event>): Trace {
    Trace(Run(es), CountsOf(es), Overtaken(es, 0), Overtaken(es, 1))
  }

  function After(t: Trace, e: Event): Trace {
    var overtaken := e.Write? && if e.call == 0 then t.first else t.second;
    Trace(Step(t.s, e),
          Counts(t.c.granted + Granted1(e), t.c.used + Used1(t.s, e), t.c.swept + Swept1(t.s, e),
                 t.c.late + Late1(t.s, e, overtaken)),
          OvertakenAfter(t.s, e, 0, t.first), OvertakenAfter(t.s, e, 1, t.second))
  }

  lemma TraceSnoc(es: seq<Event>, e: Event)
    requires e.Write? ==> e.call == 0 || e.call == 1
    ensures TraceOf(es + [e]) == After(TraceOf(es), e)
  {
    assert (es + [e])[..|es|] == es;
  }

  lemma OverlapSteps(user: string)
    ensures var granted := After(Trace(State([], map[]), Counts(0, 0, 0, 0), false, false),
                                 Whole(R.Grant(0, user, R.FeeDiscount, None)));
            var read := After(After(granted, Read(1, 0, 0)), Read(1, 1, 0));
            After(After(read, Write(0)), Write(1)).c == Counts(1, 2, 0, 1)
  {
    var r := R.New(user, R.FeeDiscount, None);
    var granted := After(Trace(State([], map[]), Counts(0, 0, 0, 0), false, false),
                         Whole(R.Grant(0, user, R.FeeDiscount, None)));
    assert [] + [r] == [r];
    assert granted == Trace(State([r], map[]), Counts(1, 0, 0, 0), false, false);
    var one := After(granted, Read(1, 0, 0));
    assert one == Trace(State([r], map[0 := 0]), Counts(1, 0, 0, 0), false, false);
    var read := After(one, Read(1, 1, 0));
    assert read == Trace(State([r], map[0 := 0, 1 := 0]), Counts(1, 0, 0, 0), false, false);
    var written := After(read, Write(0));
    assert [r][0 := r.(status := R.Redeemed)] == [r.(status := R.Redeemed)];
    assert map[0 := 0, 1 := 0] - {0} == map[1 := 0];
    assert written == Trace(State([r.(status := R.Redeemed)], map[1 := 0]), Counts(1, 1, 0, 0), false, true);
  }

  /** One such run: two redemptions of one reward both read it before either updates it, and both succeed. */
  lemma BothSucceed(user: string)
    ensures var es := [Whole(R.Grant(0, user, R.FeeDiscount, None)), Read(1, 0, 0), Read(1, 1, 0), Write(0), Write(1)];
            CountsOf(es) == Counts(1, 2, 0, 1)
  {
    assert TraceOf([]) == Trace(State([], map[]), Counts(0, 0, 0, 0), false, false);
    var a, b, c := Whole(R.Grant(0, user, R.FeeDiscount, None)), Read(1, 0, 0), Read(1, 1, 0);
    var d, e := Write(0), Write(1);
    var es := [] + [a] + [b] + [c] + [d] + [e];
    assert es == [a, b, c, d, e];
    assert TraceOf(es).c == CountsOf(es);
    hide *;
    TraceSnoc([], a);
    TraceSnoc([] + [a], b);
    TraceSnoc([] + [a] + [b], c);
    TraceSnoc([] + [a] + [b] + [c], d);
    TraceSnoc([] + [a] + [b] + [c] + [d], e);
    OverlapSteps(user);
  }
}
