/** The life of a reward: granted, redeemed at most once, or swept away when its time has passed. */
module RewardStatus {
  import opened Sequences

  datatype Status = Pending | Active | Redeemed | Expired

  datatype Kind = FeeDiscount | BonusToken | PremiumFeature | NftBadge

  datatype Reward = Reward(user: string, kind: Kind, status: Status, expiresAt: Option<int>)

  /** Rewards are known by their place in the order they were granted. */
  type Rewards = seq<Reward>

  /** `Activate` is the awaited second step of a token or badge grant. */
  datatype Event =
    | Grant(now: int, user: string, kind: Kind, expiresAt: Option<int>)
    | Activate(now: int, id: nat)
    | Redeem(now: int, id: nat)
    | List(now: int, user: string, only: Option<Kind>)
    | Sweep(now: int)

  datatype Refusal = NotFound | WrongStatus(status: Status) | HasExpired

  datatype Reply = Granted(id: nat) | Done | Used | Refused(why: Refusal) | Listed(ids: seq<nat>) | Swept(count: nat)

  predicate Timed(kind: Kind) {
    kind == FeeDiscount || kind == PremiumFeature
  }

  /** Tokens and badges start out pending and never expire. */
  function New(user: string, kind: Kind, expiresAt: Option<int>): Reward {
    if Timed(kind) then Reward(user, kind, Active, expiresAt) else Reward(user, kind, Pending, None)
  }

  predicate Overdue(r: Reward, now: int) {
    r.expiresAt.Some? && r.expiresAt.value < now
  }

  function Due(now: int): Reward -> bool {
    (r: Reward) => r.status == Active && Overdue(r, now)
  }

  function Expire(rs: Rewards, now: int): (swept: Rewards)
    ensures |swept| == |rs|
    ensures forall i :: 0 <= i < |rs| ==> swept[i] == if Due(now)(rs[i]) then rs[i].(status := Expired) else rs[i]
  {
    if rs == [] then []
    else
      var last := rs[|rs| - 1];
      Expire(rs[..|rs| - 1], now) + [if Due(now)(last) then last.(status := Expired) else last]
  }

  predicate Shown(r: Reward, now: int, user: string, kind: Option<Kind>) {
    && r.user == user && r.status == Active && (kind.Some? ==> r.kind == kind.value)
    && (r.expiresAt.Some? ==> r.expiresAt.value > now)
  }

  /** The places of the rewards shown, latest first. */
  function ShownIds(rs: Rewards, now: int, user: string, kind: Option<Kind>): seq<nat> {
    if rs == [] then []
    else
      (if Shown(rs[|rs| - 1], now, user, kind) then [|rs| - 1] else []) + ShownIds(rs[..|rs| - 1], now, user, kind)
  }

  function Refuse(rs: Rewards, now: int, id: nat): Option<Refusal> {
    if id >= |rs| then Some(NotFound)
    else if rs[id].status != Active then Some(WrongStatus(rs[id].status))
    else if Overdue(rs[id], now) then Some(HasExpired)
    else None
  }

  function Step(rs: Rewards, e: Event): (Rewards, Reply) {
    match e
    case Grant(_, user, kind, expiresAt) => (rs + [New(user, kind, expiresAt)], Granted(|rs|))
    case Activate(_, id) =>
      if id < |rs| && rs[id].status == Pending then (rs[id := rs[id].(status := Active)], Done) else (rs, Done)
    case Redeem(now, id) =>
      var refusal := Refuse(rs, now, id);
      if id < |rs| && refusal.None? then (rs[id := rs[id].(status := Redeemed)], Used)
      else (rs, Refused(if refusal.Some? then refusal.value else NotFound))
    case List(now, user, kind) => (rs, Listed(ShownIds(rs, now, user, kind)))
    case Sweep(now) => (Expire(rs, now), Swept(Count(rs, Due(now))))
  }

  function Run(es: seq<Event>): Rewards {
    if es == [] then [] else Step(Run(es[..|es| - 1]), es[|es| - 1]).0
  }

  lemma RunSnoc(es: seq<Event>, e: Event)
    ensures Run(es + [e]) == Step(Run(es), e).0
  {
    assert (es + [e])[..|es|] == es;
  }

  function Replies(es: seq<Event>): seq<Reply> {
    if es == [] then [] else Replies(es[..|es| - 1]) + [Step(Run(es[..|es| - 1]), es[|es| - 1]).1]
  }

  // ---- Balance ----

  function HasStatus(status: Status): Reward -> bool {
    (r: Reward) => r.status == status
  }

  function SweptTotal(replies: seq<Reply>): nat {
    if replies == [] then 0
    else SweptTotal(replies[..|replies| - 1]) + match replies[|replies| - 1] case Swept(n) => n case _ => 0
  }

  function Grants(): Event -> bool {
    (e: Event) => e.Grant?
  }

  function Uses(): Reply -> bool {
    (r: Reply) => r.Used?
  }

  /** A sweep moves exactly the rewards it counts from active to expired. */
  lemma {:induction false} SweepMoves(rs: Rewards, now: int)
    ensures Count(Expire(rs, now), HasStatus(Expired)) == Count(rs, HasStatus(Expired)) + Count(rs, Due(now))
    ensures Count(Expire(rs, now), HasStatus(Redeemed)) == Count(rs, HasStatus(Redeemed))
  {
    if rs != [] {
      hide Count;
      var init, last := rs[..|rs| - 1], rs[|rs| - 1];
      assert rs == init + [last];
      var kept := Expire(rs, now)[|rs| - 1];
      assert Expire(rs, now) == Expire(init, now) + [kept];
      SweepMoves(init, now);
      CountSnoc(init, last, HasStatus(Expired));
      CountSnoc(init, last, HasStatus(Redeemed));
      CountSnoc(init, last, Due(now));
      CountSnoc(Expire(init, now), kept, HasStatus(Expired));
      CountSnoc(Expire(init, now), kept, HasStatus(Redeemed));
    } else {
      assert Count(rs, Due(now)) == 0;
    }
  }

  /** Neither redeemed nor expired. */
  function Open(): Reward -> bool {
    (r: Reward) => r.status == Pending || r.status == Active
  }

  ghost predicate Balanced(rs: Rewards, grants: nat, uses: nat, swept: nat) {
    && grants == |rs| && uses == Count(rs, HasStatus(Redeemed)) && swept == Count(rs, HasStatus(Expired))
    && grants == uses + swept + Count(rs, Open())
  }

  lemma {:induction false} EveryRewardIsSomewhere(rs: Rewards)
    ensures |rs| == Count(rs, HasStatus(Redeemed)) + Count(rs, HasStatus(Expired)) + Count(rs, Open())
  {
    if rs != [] {
      hide Count;
      var init, last := rs[..|rs| - 1], rs[|rs| - 1];
      assert rs == init + [last];
      EveryRewardIsSomewhere(init);
      CountSnoc(init, last, HasStatus(Redeemed));
      CountSnoc(init, last, HasStatus(Expired));
      CountSnoc(init, last, Open());
    }
  }

  function Used1(reply: Reply): nat { if reply.Used? then 1 else 0 }

  function Swept1(reply: Reply): nat { if reply.Swept? then reply.count else 0 }

  lemma StepBalances(rs: Rewards, e: Event)
    ensures var (after, reply) := Step(rs, e);
            && |after| == |rs| + (if e.Grant? then 1 else 0)
            && Count(after, HasStatus(Redeemed)) == Count(rs, HasStatus(Redeemed)) + Used1(reply)
            && Count(after, HasStatus(Expired)) == Count(rs, HasStatus(Expired)) + Swept1(reply)
  {
    hide Count, Expire, ShownIds;
    match e
    case Grant(_, user, kind, expiresAt) =>
      CountSnoc(rs, New(user, kind, expiresAt), HasStatus(Redeemed));
      CountSnoc(rs, New(user, kind, expiresAt), HasStatus(Expired));
    case Activate(_, id) =>
      if id < |rs| && rs[id].status == Pending {
        CountUpdate(rs, id, rs[id].(status := Active), HasStatus(Redeemed));
        CountUpdate(rs, id, rs[id].(status := Active), HasStatus(Expired));
      }
    case Redeem(now, id) =>
      if Refuse(rs, now, id).None? {
        CountUpdate(rs, id, rs[id].(status := Redeemed), HasStatus(Redeemed));
        CountUpdate(rs, id, rs[id].(status := Redeemed), HasStatus(Expired));
      }
    case List(_, _, _) =>
    case Sweep(now) =>
      SweepMoves(rs, now);
  }

  lemma ReplySnoc(es: seq<Event>)
    requires es != []
    ensures var init, e := es[..|es| - 1], es[|es| - 1];
            var reply := Step(Run(init), e).1;
            && Run(es) == Step(Run(init), e).0
            && Count(es, Grants()) == Count(init, Grants()) + (if e.Grant? then 1 else 0)
            && Count(Replies(es), Uses()) == Count(Replies(init), Uses()) + Used1(reply)
            && SweptTotal(Replies(es)) == SweptTotal(Replies(init)) + Swept1(reply)
  {
    hide Step, Count;
    var init, e := es[..|es| - 1], es[|es| - 1];
    assert es == init + [e];
    CountSnoc(init, e, Grants());
    CountSnoc(Replies(init), Step(Run(init), e).1, Uses());
    assert Replies(es)[..|Replies(es)| - 1] == Replies(init);
  }

  lemma NothingBalances()
    ensures Balanced(Run([]), Count([], Grants()), Count(Replies([]), Uses()), SweptTotal(Replies([])))
  {
  }

  /** In every run, with any clock, the rewards granted are those redeemed, those the sweeps reported, and
      those still open: none is redeemed twice, redeemed and expired, or expired twice. */
  lemma {:induction false} Balance(es: seq<Event>)
    ensures Balanced(Run(es), Count(es, Grants()), Count(Replies(es), Uses()), SweptTotal(Replies(es)))
  {
    hide Count, Step, Run, Replies, SweptTotal;
    EveryRewardIsSomewhere(Run(es));
    if es == [] {
      NothingBalances();
    } else {
      Balance(es[..|es| - 1]);
      ReplySnoc(es);
      StepBalances(Run(es[..|es| - 1]), es[|es| - 1]);
    }
  }

  /** Once redeemed or expired a reward never changes. */
  lemma {:induction false} ClosedForGood(es: seq<Event>, more: seq<Event>, id: nat)
    requires id < |Run(es)| && Run(es)[id].status in {Redeemed, Expired}
    ensures id < |Run(es + more)| && Run(es + more)[id] == Run(es)[id]
  {
    if more == [] {
      assert es + more == es;
    } else {
      var init := more[..|more| - 1];
      ClosedForGood(es, init, id);
      assert (es + more)[..|es + more| - 1] == es + init;
    }
  }

  /** What is shown can be redeemed; what can be redeemed is shown to its user, except in the very
      millisecond in which it expires. */
  lemma ShownOrJustExpiring(rs: Rewards, now: int, id: nat)
    requires id < |rs|
    ensures var r := rs[id];
            && (Refuse(rs, now, id).None?
                <==> id in ShownIds(rs, now, r.user, None) || (r.status == Active && r.expiresAt == Some(now)))
            && (Refuse(rs, now, id).None? <==> r.status == Active && (r.expiresAt.None? || now <= r.expiresAt.value))
  {
    ShownIdsAre(rs, now, rs[id].user, None, id);
  }

  /** A listing shows exactly the active rewards of the user, of the kind asked for if any, that have not reached
      their expiry. */
  lemma {:induction false} ShownIdsAre(rs: Rewards, now: int, user: string, kind: Option<Kind>, id: nat)
    ensures id in ShownIds(rs, now, user, kind)
            <==> id < |rs| && rs[id].user == user && rs[id].status == Active && kind in {None, Some(rs[id].kind)}
                 && (rs[id].expiresAt.None? || now < rs[id].expiresAt.value)
  {
    if rs != [] {
      ShownIdsAre(rs[..|rs| - 1], now, user, kind, id);
    }
  }

  /** Latest first. */
  lemma {:induction false} ShownIdsDescend(rs: Rewards, now: int, user: string, kind: Option<Kind>)
    ensures forall i, j :: 0 <= i < j < |ShownIds(rs, now, user, kind)| ==>
              ShownIds(rs, now, user, kind)[i] > ShownIds(rs, now, user, kind)[j]
  {
    if rs != [] {
      hide Shown;
      var init := rs[..|rs| - 1];
      ShownIdsDescend(init, now, user, kind);
      forall id | id in ShownIds(init, now, user, kind) ensures id < |init| {
        ShownIdsAre(init, now, user, kind, id);
      }
      assert forall i :: 0 <= i < |ShownIds(init, now, user, kind)| ==>
               ShownIds(init, now, user, kind)[i] in ShownIds(init, now, user, kind);
    }
  }

  /** A redemption is answered by the first thing that is wrong; if nothing is, it changes one status. */
  lemma RedemptionOutcome(rs: Rewards, now: int, id: nat)
    ensures var (after, reply) := Step(rs, Redeem(now, id));
            && (id >= |rs| ==> reply == Refused(NotFound))
            && (id < |rs| && rs[id].status != Active ==> reply == Refused(WrongStatus(rs[id].status)))
            && (id < |rs| && rs[id].status == Active && rs[id].expiresAt.Some? && rs[id].expiresAt.value < now ==>
                  reply == Refused(HasExpired))
            && (id < |rs| && rs[id].status == Active && (rs[id].expiresAt.None? || now <= rs[id].expiresAt.value) ==>
                  reply == Used && after == rs[id := Reward(rs[id].user, rs[id].kind, Redeemed, rs[id].expiresAt)])
            && (reply != Used ==> after == rs)
  {
  }

  // ---- What was granted ----

  /** Whatever happens to a reward afterwards, it stays its user's, of its kind, and keeps the expiry it was
      granted with; tokens and badges have none. */
  lemma {:induction false} KeepsWhatWasGranted(es: seq<Event>, k: nat)
    requires k < |es| && es[k].Grant?
    ensures var id := |Run(es[..k])|;
            && id < |Run(es)| && Run(es)[id].user == es[k].user && Run(es)[id].kind == es[k].kind
            && Run(es)[id].expiresAt == if es[k].kind in {BonusToken, NftBadge} then None else es[k].expiresAt
  {
    var init, e := es[..|es| - 1], es[|es| - 1];
    assert es == init + [e];
    RunSnoc(init, e);
    if k < |init| {
      KeepsWhatWasGranted(init, k);
      assert init[..k] == es[..k];
      hide Run;
      StepKeepsTerms(Run(init), e, |Run(es[..k])|);
    } else {
      hide Run;
    }
  }

  lemma StepKeepsTerms(rs: Rewards, e: Event, id: nat)
    requires id < |rs|
    ensures var after := Step(rs, e).0;
            && id < |after| && after[id].user == rs[id].user && after[id].kind == rs[id].kind
            && after[id].expiresAt == rs[id].expiresAt
  {
    hide ShownIds, Refuse, New, Overdue;
  }

  // ---- Sweeps do not show ----

  ghost predicate Monotone(es: seq<Event>) {
    forall i, j :: 0 <= i < j < |es| ==> es[i].now <= es[j].now
  }

  function NotSweep(): Event -> bool {
    (e: Event) => !e.Sweep?
  }

  /** An expired reward is refused for its status once swept, and for its age before: the refusals differ
      in their text only. */
  function Plain(reply: Reply): Reply {
    if reply == Refused(WrongStatus(Expired)) then Refused(HasExpired) else reply
  }

  /** The replies to everything but sweeps. */
  function Answers(es: seq<Event>): seq<Reply> {
    if es == [] then []
    else
      Answers(es[..|es| - 1])
      + if es[|es| - 1].Sweep? then [] else [Plain(Step(Run(es[..|es| - 1]), es[|es| - 1]).1)]
  }

  /** `swept` differs from `kept` only in having expired some of what is overdue. */
  ghost predicate Simulates(swept: Rewards, kept: Rewards, clock: int) {
    |swept| == |kept|
    && forall i :: 0 <= i < |kept| ==>
         swept[i] == kept[i] || (Due(clock)(kept[i]) && swept[i] == kept[i].(status := Expired))
  }

  ghost predicate NoneExpired(rs: Rewards) {
    forall r :: r in rs ==> r.status != Expired
  }

  lemma SimulatesLater(swept: Rewards, kept: Rewards, clock: int, now: int)
    requires Simulates(swept, kept, clock) && clock <= now
    ensures Simulates(swept, kept, now)
  {
  }

  lemma GrantSimulates(swept: Rewards, kept: Rewards, e: Event)
    requires Simulates(swept, kept, e.now) && e.Grant?
    ensures Simulates(Step(swept, e).0, Step(kept, e).0, e.now)
    ensures Plain(Step(swept, e).1) == Plain(Step(kept, e).1)
  {
    hide Due, New;
  }

  lemma ActivateSimulates(swept: Rewards, kept: Rewards, e: Event)
    requires Simulates(swept, kept, e.now) && e.Activate?
    ensures Simulates(Step(swept, e).0, Step(kept, e).0, e.now)
    ensures Plain(Step(swept, e).1) == Plain(Step(kept, e).1)
  {
    hide Overdue;
  }

  lemma RedeemSimulates(swept: Rewards, kept: Rewards, e: Event)
    requires Simulates(swept, kept, e.now) && NoneExpired(kept) && e.Redeem?
    ensures Simulates(Step(swept, e).0, Step(kept, e).0, e.now)
    ensures Plain(Step(swept, e).1) == Plain(Step(kept, e).1)
  {
    hide Overdue;
    if e.id < |kept| {
      assert kept[e.id] in kept;
    }
  }

  lemma SweepSimulates(swept: Rewards, kept: Rewards, now: int)
    requires Simulates(swept, kept, now)
    ensures Simulates(Expire(swept, now), kept, now)
  {
    hide Overdue;
  }

  lemma StepSimulates(swept: Rewards, kept: Rewards, e: Event)
    requires Simulates(swept, kept, e.now) && NoneExpired(kept)
    ensures !e.Sweep? ==> Simulates(Step(swept, e).0, Step(kept, e).0, e.now)
    ensures !e.Sweep? ==> Plain(Step(swept, e).1) == Plain(Step(kept, e).1)
    ensures e.Sweep? ==> Simulates(Step(swept, e).0, kept, e.now)
  {
    hide Simulates, NoneExpired, Plain, Expire, Refuse, ShownIds;
    match e
    case Grant(_, _, _, _) => GrantSimulates(swept, kept, e);
    case Activate(_, _) => ActivateSimulates(swept, kept, e);
    case Redeem(_, _) => RedeemSimulates(swept, kept, e);
    case List(now, user, only) => ShownAlike(swept, kept, now, user, only);
    case Sweep(now) => SweepSimulates(swept, kept, now);
  }

  lemma SimulatesPrefix(swept: Rewards, kept: Rewards, now: int, user: string, kind: Option<Kind>)
    requires Simulates(swept, kept, now) && kept != []
    ensures swept != [] && Simulates(swept[..|swept| - 1], kept[..|kept| - 1], now)
    ensures Shown(swept[|swept| - 1], now, user, kind) == Shown(kept[|kept| - 1], now, user, kind)
  {
  }

  lemma {:induction false} ShownAlike(swept: Rewards, kept: Rewards, now: int, user: string, kind: Option<Kind>)
    requires Simulates(swept, kept, now)
    ensures ShownIds(swept, now, user, kind) == ShownIds(kept, now, user, kind)
  {
    if kept != [] {
      SimulatesPrefix(swept, kept, now, user, kind);
      assert |swept| == |kept|;
      hide Simulates, Shown;
      ShownAlike(swept[..|swept| - 1], kept[..|kept| - 1], now, user, kind);
    }
  }

  lemma NeverExpiredUnswept(rs: Rewards, e: Event)
    requires !e.Sweep? && NoneExpired(rs)
    ensures NoneExpired(Step(rs, e).0)
  {
    hide ShownIds, Refuse;
  }

  lemma AnswersSnoc(es: seq<Event>, e: Event)
    ensures Answers(es + [e]) == Answers(es) + if e.Sweep? then [] else [Plain(Step(Run(es), e).1)]
  {
    hide Plain, Step, Run;
    assert (es + [e])[..|es|] == es;
  }

  lemma NothingSimulates(clock: int)
    ensures Filter([], NotSweep()) == []
    ensures Simulates(Run([]), Run([]), clock) && NoneExpired(Run([]))
  {
  }

  lemma MonotonePrefix(es: seq<Event>)
    requires Monotone(es) && es != []
    ensures var init := es[..|es| - 1];
            Monotone(init) && (init != [] ==> init[|init| - 1].now <= es[|es| - 1].now)
  {
  }

  lemma {:induction false} RunsSimulate(es: seq<Event>, clock: int)
    requires Monotone(es) && (es != [] ==> es[|es| - 1].now <= clock)
    ensures Simulates(Run(es), Run(Filter(es, NotSweep())), clock)
    ensures NoneExpired(Run(Filter(es, NotSweep())))
    ensures Answers(es) == Answers(Filter(es, NotSweep()))
  {
    if es == [] {
      NothingSimulates(clock);
    } else {
      hide Simulates, NoneExpired, Monotone, Answers, Run, Step, Plain, Filter;
      var init, e := es[..|es| - 1], es[|es| - 1];
      var kept := Filter(init, NotSweep());
      assert es == init + [e];
      MonotonePrefix(es);
      RunsSimulate(init, e.now);
      StepSimulates(Run(init), Run(kept), e);
      FilterSnoc(init, e, NotSweep());
      RunSnoc(init, e);
      AnswersSnoc(init, e);
      if !e.Sweep? {
        NeverExpiredUnswept(Run(kept), e);
        RunSnoc(kept, e);
        AnswersSnoc(kept, e);
      }
      SimulatesLater(Run(es), Run(Filter(es, NotSweep())), e.now, clock);
    }
  }

  /** In every run whose clock never goes back, grants, redemptions and listings are answered as if no
      sweep had ever run, up to the wording of refusals. */
  lemma SweeperIsInvisible(es: seq<Event>)
    requires Monotone(es)
    ensures Answers(es) == Answers(Filter(es, NotSweep()))
  {
    if es != [] {
      RunsSimulate(es, es[|es| - 1].now);
    }
  }
}
