/** The reward engine: methods over the two tables, which hold what their whole histories say. */
module RewardEngine {
  import opened Sequences
  import opened RewardConfigs
  import opened RewardStatus

  class Tables {
    var configs: seq<ConfigRow>
    var rewards: Rewards
    /** Everything that every engine ever did to the two tables. */
    ghost var configEvents: seq<RewardConfigs.Event>
    ghost var rewardEvents: seq<RewardStatus.Event>

    ghost predicate Valid()
      reads this
    {
      RowsAfter(configEvents, configs) && rewards == RewardStatus.Run(rewardEvents)
    }

    constructor ()
      ensures Valid() && configEvents == [] && rewardEvents == []
    {
      configs, rewards, configEvents, rewardEvents := [], [], [], [];
    }
  }

  class RewardEngine {
    const tables: Tables
    /** Engines over the same tables have different numbers. */
    ghost const number: nat
    var config: Option<Config>

    /** The cache, too, holds what the history says. */
    ghost predicate Valid()
      reads this, tables
    {
      tables.Valid() && CacheAfter(tables.configEvents, number, config)
    }

    constructor (tables: Tables, ghost number: nat)
      requires tables.Valid() && number !in RewardConfigs.Run(tables.configEvents).caches
      ensures Valid() && this.tables == tables && this.number == number && config == None
    {
      this.tables, this.number, config := tables, number, None;
    }

    /** Fails, with the cache already replaced, iff the version was loaded before by any engine. */
    method LoadConfiguration(c: Config) returns (stored: bool)
      requires Valid()
      modifies this`config, tables`configs, tables`configEvents
      ensures Valid() && config == Some(c)
      ensures tables.configEvents == old(tables.configEvents) + [Begin(number, c)]
                                     + if stored then [Finish(c.version)] else []
      ensures stored <==> FirstLoaded(old(tables.configEvents), c.version).None?
      ensures stored ==> Holds(tables.configs, c) && LowerVersionsOff(tables.configs, c.version)
    {
      hide RowsAfter, CacheAfter, Deactivate, FirstLoaded, Stored, RewardStatus.Run, Holds, LowerVersionsOff;
      ghost var es := tables.configEvents;
      config := Some(c);
      tables.configEvents := tables.configEvents + [Begin(number, c)];
      if Stored(tables.configs, c.version) {
        RefusedLoad(es, tables.configs, number, c);
        return false;
      }
      AcceptedLoad(es, tables.configs, number, c);
      tables.configs := tables.configs + [ConfigRow(c, true)];
      tables.configs := Deactivate(tables.configs, c.version);
      tables.configEvents := tables.configEvents + [Finish(c.version)];
      return true;
    }

    /** None stands for the error that no active configuration was found. The first read of an engine that
        never loaded gives the greatest version ever loaded by any; later ones repeat what it cached. */
    method GetConfiguration() returns (r: Option<Config>)
      requires Valid()
      modifies this`config, tables`configEvents
      ensures Valid() && config == r && tables.configEvents == old(tables.configEvents) + [Get(number)]
      ensures old(config).Some? ==> r == old(config)
      ensures old(config).None? ==>
                && (r.None? <==> forall v :: FirstLoaded(old(tables.configEvents), v).None?)
                && (r.Some? ==>
                      FirstLoaded(old(tables.configEvents), r.value.version) == r
                      && forall v :: FirstLoaded(old(tables.configEvents), v).Some? ==> v <= r.value.version)
    {
      ghost var es := tables.configEvents;
      RewardConfigs.RunSnoc(es, Get(number));
      if config.None? {
        FreshEngineServesGreatest(es, number);
      }
      hide RewardConfigs.Run, NewestActive, FirstLoaded;
      tables.configEvents := es + [Get(number)];
      if config.None? {
        config := NewestActive(tables.configs);
      }
      return config;
    }

    /** Returns the record as it was created: a token or a badge is still pending in it, though the stored
        one has been activated. */
    method GrantReward(user: string, kind: Kind, expiresAt: Option<int>, now: int) returns (id: nat, reward: Reward)
      requires tables.Valid()
      modifies tables`rewards, tables`rewardEvents
      ensures tables.Valid()
      ensures tables.rewardEvents == old(tables.rewardEvents) + [Grant(now, user, kind, expiresAt)]
                                     + if kind in {BonusToken, NftBadge} then [Activate(now, id)] else []
      ensures kind in {FeeDiscount, PremiumFeature} ==> reward == Reward(user, kind, Active, expiresAt)
      ensures kind in {BonusToken, NftBadge} ==> reward == Reward(user, kind, Pending, None)
      ensures id == |old(tables.rewards)| && tables.rewards == old(tables.rewards) + [reward.(status := Active)]
    {
      ghost var es := tables.rewardEvents;
      RewardStatus.RunSnoc(es, Grant(now, user, kind, expiresAt));
      id := |tables.rewards|;
      RewardStatus.RunSnoc(es + [Grant(now, user, kind, expiresAt)], Activate(now, id));
      hide RewardConfigs.Run, RewardStatus.Run;
      tables.rewardEvents := es + [Grant(now, user, kind, expiresAt)];
      if Timed(kind) {
        reward := Reward(user, kind, Active, expiresAt);
        tables.rewards := tables.rewards + [reward];
      } else {
        reward := Reward(user, kind, Pending, None);
        tables.rewards := tables.rewards + [reward];
        tables.rewards := tables.rewards[id := tables.rewards[id].(status := Active)];
        tables.rewardEvents := tables.rewardEvents + [Activate(now, id)];
      }
    }

    /** The rewards of a user that can be shown, latest first. */
    method GetActiveRewards(user: string, only: Option<Kind>, now: int) returns (ids: seq<nat>)
      ensures forall id: nat ::
                id in ids
                <==> && id < |tables.rewards|
                     && var r := tables.rewards[id];
                        && r.user == user && r.status == Active && only in {None, Some(r.kind)}
                        && (r.expiresAt.None? || now < r.expiresAt.value)
      ensures forall i, j :: 0 <= i < j < |ids| ==> ids[i] > ids[j]
    {
      ids := [];
      for i := 0 to |tables.rewards|
        invariant forall id: nat :: id in ids <==> id < i && Shown(tables.rewards[id], now, user, only)
        invariant forall i, j :: 0 <= i < j < |ids| ==> ids[i] > ids[j]
      {
        if Shown(tables.rewards[i], now, user, only) {
          assert forall k :: 0 <= k < |ids| ==> ids[k] in ids;
          ids := [i] + ids;
        }
      }
    }

    /** Succeeds iff the reward is active and its expiry has not passed, and then changes its status alone. */
    method RedeemReward(id: nat, now: int) returns (reply: Reply)
      requires tables.Valid()
      modifies tables`rewards, tables`rewardEvents
      ensures tables.Valid() && tables.rewardEvents == old(tables.rewardEvents) + [Redeem(now, id)]
      ensures reply == Used <==>
                id < |old(tables.rewards)| && old(tables.rewards)[id].status == Active
                && (old(tables.rewards)[id].expiresAt.None? || now <= old(tables.rewards)[id].expiresAt.value)
      ensures reply == Used ==>
                tables.rewards == old(tables.rewards)[id := old(tables.rewards)[id].(status := Redeemed)]
      ensures reply != Used ==> reply.Refused? && tables.rewards == old(tables.rewards)
      ensures reply == Refused(NotFound) <==> id >= |old(tables.rewards)|
      ensures reply == Refused(HasExpired) ==> old(tables.rewards)[id].status == Active
      ensures reply.Refused? && reply.why.WrongStatus? ==> reply.why.status == old(tables.rewards)[id].status != Active
    {
      RewardStatus.RunSnoc(tables.rewardEvents, Redeem(now, id));
      hide RewardConfigs.Run, RewardStatus.Run;
      tables.rewardEvents := tables.rewardEvents + [Redeem(now, id)];
      if id >= |tables.rewards| {
        return Refused(NotFound);
      }
      var reward := tables.rewards[id];
      if reward.status != Active {
        return Refused(WrongStatus(reward.status));
      }
      if reward.expiresAt.Some? && reward.expiresAt.value < now {
        return Refused(HasExpired);
      }
      tables.rewards := tables.rewards[id := reward.(status := Redeemed)];
      return Used;
    }

    /** Every active reward whose expiry has passed becomes expired, nothing else changes, none is left, and
        the count is the number of rewards that changed. */
    method ExpireRewards(now: int) returns (count: nat)
      requires tables.Valid()
      modifies tables`rewards, tables`rewardEvents
      ensures tables.Valid() && tables.rewardEvents == old(tables.rewardEvents) + [Sweep(now)]
      ensures ExpiredExactly(old(tables.rewards), tables.rewards, now)
      ensures NoneOverdue(tables.rewards, now)
      ensures count == |Changed(old(tables.rewards), tables.rewards)|
    {
      ghost var rs := tables.rewards;
      RewardStatus.RunSnoc(tables.rewardEvents, Sweep(now));
      NoneChanged(rs);
      hide RewardConfigs.Run, RewardStatus.Run, Changed, ExpiredUpTo, Expire, NoneOverdue;
      count := 0;
      for i := 0 to |tables.rewards|
        invariant |tables.rewards| == |rs|
        invariant ExpiredUpTo(rs, tables.rewards, now, i)
        invariant count == |Changed(rs, tables.rewards)|
        invariant tables.rewardEvents == old(tables.rewardEvents)
      {
        var reward := tables.rewards[i];
        ExpireNext(rs, tables.rewards, now, i);
        if reward.status == Active && reward.expiresAt.Some? && reward.expiresAt.value < now {
          OneMoreChanged(rs, tables.rewards, i, reward.(status := Expired));
          tables.rewards := tables.rewards[i := reward.(status := Expired)];
          count := count + 1;
        }
      }
      tables.rewardEvents := tables.rewardEvents + [Sweep(now)];
      ExpiredAll(rs, tables.rewards, now);
    }
  }

  /** The first `n` rewards have been looked at. */
  ghost predicate ExpiredUpTo(before: Rewards, after: Rewards, now: int, n: nat) {
    && |after| == |before|
    && forall i :: 0 <= i < |before| ==>
         after[i]
         == if i < n && before[i].status == Active && before[i].expiresAt.Some? && before[i].expiresAt.value < now
            then before[i].(status := Expired) else before[i]
  }

  /** Exactly the active rewards whose expiry lies before `now` have become expired. */
  ghost predicate ExpiredExactly(before: Rewards, after: Rewards, now: int) {
    ExpiredUpTo(before, after, now, |before|)
  }

  ghost predicate NoneOverdue(rs: Rewards, now: int) {
    forall i :: 0 <= i < |rs| && rs[i].status == Active ==> rs[i].expiresAt.None? || now <= rs[i].expiresAt.value
  }

  lemma ExpireNext(before: Rewards, after: Rewards, now: int, n: nat)
    requires ExpiredUpTo(before, after, now, n) && n < |before|
    ensures after[n] == before[n]
    ensures var r := before[n];
            if r.status == Active && Overdue(r, now)
            then ExpiredUpTo(before, after[n := r.(status := Expired)], now, n + 1)
            else ExpiredUpTo(before, after, now, n + 1)
  {
  }

  lemma ExpiredAll(before: Rewards, after: Rewards, now: int)
    requires ExpiredUpTo(before, after, now, |before|)
    ensures NoneOverdue(after, now) && after == Expire(before, now)
  {
  }

  /** The places at which two tables differ. */
  function Changed(before: Rewards, after: Rewards): set<int>
    requires |before| == |after|
  {
    set i | 0 <= i < |before| && before[i] != after[i]
  }

  lemma NoneChanged(rs: Rewards)
    ensures Changed(rs, rs) == {}
    ensures forall now :: ExpiredUpTo(rs, rs, now, 0)
  {
  }

  lemma OneMoreChanged(before: Rewards, after: Rewards, i: nat, r: Reward)
    requires |before| == |after| && i < |before| && after[i] == before[i] != r
    ensures |Changed(before, after[i := r])| == |Changed(before, after)| + 1
  {
    assert Changed(before, after[i := r]) == Changed(before, after) + {i};
  }
}
