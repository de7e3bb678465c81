/** Group disputes: members vote, a majority resolves, anyone may escalate and an admin may decide. */
module Disputes {
  import opened Sequences

  datatype Vote = Yes | No

  datatype Status = Voting | Resolved | Escalated

  datatype Dispute = Dispute(
    groupId: string, filedBy: string, status: Status, votes: map<string, Vote>, votingDeadline: int,
    decision: Option<Vote>, resolvedBy: Option<string>, adminDecision: Option<string>)

  datatype Error = NotFound | VotingNotOpen | VotingEnded | NotMember

  /** The stored dispute after an operation, and what the caller got: the returned dispute or an error. */
  datatype Outcome = Done(returned: Dispute) | Failed(error: Error)

  /** `tallyNow` is the second clock reading, taken by the tally that follows a vote. `members` is the
      group's membership at that moment. */
  datatype Action =
    | CastVote(members: seq<string>, voter: string, vote: Vote, now: int, tallyNow: int)
    | TryAutoResolve(members: seq<string>, now: int)
    | EscalateToAdmin
    | AdminResolve(admin: string, ruling: string)

  function Side(votes: map<string, Vote>, v: Vote): set<string> {
    set k | k in votes && votes[k] == v
  }

  function Tally(votes: map<string, Vote>, v: Vote): nat {
    |Side(votes, v)|
  }

  /** Half of the members, rounded up. */
  function Majority(n: nat): nat {
    (n + 1) / 2
  }

  function Filed(groupId: string, filedBy: string, now: int, votingWindow: int): Dispute {
    Dispute(groupId, filedBy, Voting, map[], now + votingWindow * 1000, None, None, None)
  }

  function AutoResolve(d: Dispute, n: nat, now: int): Dispute {
    if d.status != Voting then d
    else if Tally(d.votes, Yes) >= Majority(n) then
      d.(status := Resolved, decision := Some(Yes), resolvedBy := Some("community"))
    else if Tally(d.votes, No) >= Majority(n) then
      d.(status := Resolved, decision := Some(No), resolvedBy := Some("community"))
    else if d.votingDeadline < now then d.(status := Escalated)
    else d
  }

  function Apply(d: Dispute, a: Action): (Dispute, Outcome) {
    match a
    case CastVote(members, voter, vote, now, tallyNow) =>
      if d.status != Voting then (d, Failed(VotingNotOpen))
      else if d.votingDeadline < now then (d, Failed(VotingEnded))
      else if voter !in members then (d, Failed(NotMember))
      else
        var voted := d.(votes := d.votes[voter := vote]);
        (AutoResolve(voted, |members|, tallyNow), Done(voted))
    case TryAutoResolve(members, now) =>
      var r := AutoResolve(d, |members|, now);
      (r, Done(r))
    case EscalateToAdmin =>
      var r := d.(status := Escalated);
      (r, Done(r))
    case AdminResolve(admin, ruling) =>
      var r := d.(status := Resolved, resolvedBy := Some(admin), adminDecision := Some(ruling));
      (r, Done(r))
  }

  function Live(d: Dispute, actions: seq<Action>): Dispute {
    if actions == [] then d else Apply(Live(d, actions[..|actions| - 1]), actions[|actions| - 1]).0
  }

  /** Whether the action counts the votes, which it then does against its `members`. */
  predicate Tallies(d: Dispute, a: Action) {
    d.status == Voting
    && (a.TryAutoResolve? || (a.CastVote? && d.votingDeadline >= a.now && a.voter in a.members))
  }

  /** The membership size at the last count, starting from `n` at filing. */
  function LastTally(d: Dispute, n: nat, actions: seq<Action>): nat {
    if actions == [] then n
    else
      var init, a := actions[..|actions| - 1], actions[|actions| - 1];
      if Tallies(Live(d, init), a) then |a.members| else LastTally(d, n, init)
  }

  lemma LiveSnoc(d: Dispute, actions: seq<Action>, a: Action)
    ensures Live(d, actions + [a]) == Apply(Live(d, actions), a).0
  {
    hide Apply;
    assert (actions + [a])[..|actions|] == actions;
  }

  lemma LastTallySnoc(d: Dispute, n: nat, actions: seq<Action>, a: Action)
    ensures LastTally(d, n, actions + [a])
            == if Tallies(Live(d, actions), a) then |a.members| else LastTally(d, n, actions)
  {
    hide Live, Tallies;
    assert (actions + [a])[..|actions|] == actions;
  }

  /** The votes as the action counts them. */
  function Balloted(d: Dispute, a: Action): map<string, Vote> {
    if a.CastVote? then d.votes[a.voter := a.vote] else d.votes
  }

  lemma VoteMovesTallies(votes: map<string, Vote>, voter: string, v: Vote, other: Vote)
    requires other != v
    ensures Tally(votes[voter := v], v) <= Tally(votes, v) + 1
    ensures Tally(votes[voter := v], other) <= Tally(votes, other)
    ensures Tally(votes[voter := v], v) >= 1
  {
    var after := votes[voter := v];
    var mine, others := Side(votes, v), Side(votes, other);
    assert Side(after, v) == mine + {voter} by {
      assert forall k :: k in Side(after, v) <==> k in mine + {voter};
    }
    assert Side(after, other) == others - {voter} by {
      assert forall k :: k in Side(after, other) <==> k in others - {voter};
    }
    assert voter in Side(after, v);
  }

  lemma NewVoteCounts(votes: map<string, Vote>, voter: string, v: Vote)
    requires voter !in votes
    ensures Tally(votes[voter := v], v) == Tally(votes, v) + 1
    ensures Tally(votes[voter := v], Opposite(v)) == Tally(votes, Opposite(v))
  {
    var after := votes[voter := v];
    assert Side(after, v) == Side(votes, v) + {voter};
    assert Side(after, Opposite(v)) == Side(votes, Opposite(v));
  }

  lemma SidesPartition(votes: map<string, Vote>)
    ensures Tally(votes, Yes) + Tally(votes, No) == |votes|
  {
    assert votes.Keys == Side(votes, Yes) + Side(votes, No);
    assert Side(votes, Yes) !! Side(votes, No);
  }

  /** Less than half of `n` members are for either side. */
  ghost predicate NeitherReached(d: Dispute, n: nat) {
    2 * Tally(d.votes, Yes) < n && 2 * Tally(d.votes, No) < n
  }

  /** At least half of `n` members are for each side. */
  ghost predicate BothReached(votes: map<string, Vote>, n: nat) {
    2 * Tally(votes, Yes) >= n && 2 * Tally(votes, No) >= n
  }

  /** Half of `n` members, rounded up, are no more than half of `m` members, rounded up. */
  predicate NoMoreNeeded(n: nat, m: nat) {
    n + n % 2 <= m + m % 2
  }

  /** What a count makes of the dispute, in numbers of votes and members. */
  lemma CountOutcome(d: Dispute, a: Action)
    requires Tallies(d, a)
    ensures var r, votes, n := Apply(d, a).0, Balloted(d, a), |a.members|;
            var yes, no := |set k | k in votes && votes[k] == Yes|, |set k | k in votes && votes[k] == No|;
            && r.votes == votes
            && (2 * yes >= n ==> r.status == Resolved && r.decision == Some(Yes) && r.resolvedBy == Some("community"))
            && (2 * yes < n <= 2 * no ==>
                  r.status == Resolved && r.decision == Some(No) && r.resolvedBy == Some("community"))
            && (2 * yes < n && 2 * no < n ==>
                  && r.decision == d.decision && r.resolvedBy == d.resolvedBy
                  && r.status == if (if a.CastVote? then a.tallyNow else a.now) > d.votingDeadline then Escalated
                                 else Voting)
  {
    var votes := Balloted(d, a);
    assert Side(votes, Yes) == set k | k in votes && votes[k] == Yes;
    assert Side(votes, No) == set k | k in votes && votes[k] == No;
    hide Side;
  }

  /** A dispute before the first vote. */
  predicate Opened(d: Dispute) {
    d.status == Voting && d.votes == map[]
  }

  /** Whatever the votes, re-votes, tallies, escalations and rulings, and however the group changes, a
      dispute that is still being voted on has less than half of the group as last counted for either side. */
  lemma {:induction false} VotingMeansUndecided(d: Dispute, n: nat, actions: seq<Action>)
    requires Opened(d) && n >= 1
    ensures Live(d, actions).status == Voting ==>
              LastTally(d, n, actions) >= 1 && NeitherReached(Live(d, actions), LastTally(d, n, actions))
  {
    if actions == [] {
      NoVotesYet(d, n);
    } else {
      hide Live, LastTally, Apply, Tallies, NeitherReached, Opened;
      var init, a := actions[..|actions| - 1], actions[|actions| - 1];
      assert actions == init + [a];
      VotingMeansUndecided(d, n, init);
      LiveSnoc(d, init, a);
      LastTallySnoc(d, n, init, a);
      if Live(d, actions).status == Voting {
        StepLeavesUndecided(Live(d, init), a);
      }
    }
  }

  lemma NoVotesYet(d: Dispute, n: nat)
    requires Opened(d) && n >= 1
    ensures NeitherReached(d, n)
  {
    assert Side(d.votes, Yes) == {} && Side(d.votes, No) == {};
  }

  lemma StepLeavesUndecided(d: Dispute, a: Action)
    requires Apply(d, a).0.status == Voting
    ensures if Tallies(d, a) then |a.members| >= 1 && NeitherReached(Apply(d, a).0, |a.members|)
            else Apply(d, a).0 == d
  {
    hide Tally;
  }

  /** Hence voting is pending only while somebody has not voted: a full turnout always decides. */
  lemma FullTurnoutDecides(d: Dispute, n: nat, actions: seq<Action>)
    requires Opened(d) && n >= 1
    requires Live(d, actions).status == Voting
    ensures |Live(d, actions).votes| < LastTally(d, n, actions)
  {
    VotingMeansUndecided(d, n, actions);
    SidesPartition(Live(d, actions).votes);
  }

  function Opposite(v: Vote): Vote {
    if v == Yes then No else Yes
  }

  /** When the majority has not dropped since the last count, a community resolution happens only on a vote,
      for the side just voted for, which then has exactly half of the members rounded up while the other
      side has less than half. */
  lemma ResolutionHasOneWinner(d: Dispute, n: nat, actions: seq<Action>, a: Action)
    requires Opened(d) && n >= 1
    requires Tallies(Live(d, actions), a) && NoMoreNeeded(LastTally(d, n, actions), |a.members|)
    requires Live(d, actions + [a]).status == Resolved
    ensures a.CastVote?
    ensures var r := Live(d, actions + [a]);
            && r.decision == Some(a.vote) && r.resolvedBy == Some("community")
            && 2 * Tally(r.votes, a.vote) == |a.members| + |a.members| % 2
            && 2 * Tally(r.votes, Opposite(a.vote)) < |a.members|
  {
    hide Live, LastTally, Tally, Apply, NeitherReached, NoMoreNeeded;
    LiveSnoc(d, actions, a);
    VotingMeansUndecided(d, n, actions);
    CountHasOneWinner(Live(d, actions), LastTally(d, n, actions), a);
  }

  lemma CountHasOneWinner(d: Dispute, n: nat, a: Action)
    requires NeitherReached(d, n) && Tallies(d, a) && NoMoreNeeded(n, |a.members|)
    requires Apply(d, a).0.status == Resolved
    ensures a.CastVote?
    ensures var r := Apply(d, a).0;
            && r.decision == Some(a.vote) && r.resolvedBy == Some("community")
            && 2 * Tally(r.votes, a.vote) == |a.members| + |a.members| % 2
            && 2 * Tally(r.votes, Opposite(a.vote)) < |a.members|
  {
    hide Tally;
    if a.CastVote? {
      VoteMovesTallies(d.votes, a.voter, a.vote, Opposite(a.vote));
    }
  }

  /** In a group of two, one vote of the two resolves: the comment's "more than half" is not the rule. */
  lemma HalfIsEnough()
    ensures var d := Filed("g", "a", 0, 1);
            var r := Apply(d, CastVote(["a", "b"], "a", Yes, 0, 0)).0;
            r.status == Resolved && r.decision == Some(Yes) && 2 * Tally(r.votes, Yes) == 2
  {
    var votes := map["a" := Yes];
    assert Filed("g", "a", 0, 1).votes["a" := Yes] == votes;
    assert Side(votes, Yes) == {"a"};
  }

  // ---- When the order in which the sides are checked matters ----

  /** After no run last counted at `n0` does a count at `n1` find half of the members for each side, so that it
      would matter which is checked first. */
  ghost predicate OneSideAtMost(n0: nat, n1: nat) {
    forall d, n: nat, actions, a ::
      Opened(d) && n >= 1 && Live(d, actions).status == Voting && LastTally(d, n, actions) == n0
      && Tallies(Live(d, actions), a) && |a.members| == n1
      ==> !BothReached(Balloted(Live(d, actions), a), n1)
  }

  /** The exact condition: the order is irrelevant iff the majority does not drop between two counts. */
  lemma OneSideAtMostIff(n0: nat, n1: nat)
    requires n0 >= 1
    ensures OneSideAtMost(n0, n1) <==> NoMoreNeeded(n0, n1)
  {
    hide Live, LastTally, Tally, Opened;
    if NoMoreNeeded(n0, n1) {
      forall d, n: nat, actions, a |
        Opened(d) && n >= 1 && Live(d, actions).status == Voting && LastTally(d, n, actions) == n0
        && Tallies(Live(d, actions), a) && |a.members| == n1
        ensures !BothReached(Balloted(Live(d, actions), a), n1)
      {
        VotingMeansUndecided(d, n, actions);
        if a.CastVote? {
          VoteMovesTallies(Live(d, actions).votes, a.voter, a.vote, Opposite(a.vote));
        }
      }
    } else {
      var d, actions, a := EvenSplit(n0, n1);
      assert BothReached(Balloted(Live(d, actions), a), n1);
    }
  }

  function Member(i: nat): string {
    seq(i, _ => 'm')
  }

  function Members(n: nat): (members: seq<string>)
    ensures |members| == n && forall i: nat :: i < n ==> Member(i) in members
  {
    if n == 0 then [] else Members(n - 1) + [Member(n - 1)]
  }

  /** The first `k` members vote, the first `half` of them yes and the others no. */
  function Ballots(n: nat, half: nat, k: nat): seq<Action> {
    if k == 0 then [] else Ballots(n, half, k - 1) + [Ballot(n, half, k - 1)]
  }

  function Ballot(n: nat, half: nat, k: nat): Action {
    CastVote(Members(n), Member(k), if k < half then Yes else No, 0, 0)
  }

  const OPENED := Filed("g", "", 0, 1)

  /** What is known after `k` ballots. */
  ghost predicate HalfOpen(d: Dispute, half: nat, k: nat) {
    && d.status == Voting && d.votingDeadline == 1000
    && Tally(d.votes, Yes) == (if k <= half then k else half)
    && Tally(d.votes, No) == (if k <= half then 0 else k - half)
    && forall name :: name in d.votes ==> |name| < k
  }

  lemma OneMoreBallot(d: Dispute, n: nat, half: nat, k: nat)
    requires HalfOpen(d, half, k) && 2 * half < n && k < 2 * half
    ensures Tallies(d, Ballot(n, half, k)) && HalfOpen(Apply(d, Ballot(n, half, k)).0, half, k + 1)
  {
    var v := if k < half then Yes else No;
    assert Member(k) in Members(n) && |Member(k)| == k;
    NewVoteCounts(d.votes, Member(k), v);
    hide Tally;
  }

  lemma {:induction false} BallotsStayOpen(n: nat, half: nat, k: nat)
    requires 2 * half < n && k <= 2 * half
    ensures HalfOpen(Live(OPENED, Ballots(n, half, k)), half, k)
    ensures LastTally(OPENED, n, Ballots(n, half, k)) == n
  {
    hide *;
    if k == 0 {
      NoBallotYet(n, half);
    } else {
      var before, a := Ballots(n, half, k - 1), Ballot(n, half, k - 1);
      BallotsStayOpen(n, half, k - 1);
      OneMoreBallot(Live(OPENED, before), n, half, k - 1);
      LiveSnoc(OPENED, before, a);
      LastTallySnoc(OPENED, n, before, a);
      BallotsSnoc(n, half, k);
    }
  }

  lemma BallotsSnoc(n: nat, half: nat, k: nat)
    requires k > 0
    ensures Ballots(n, half, k) == Ballots(n, half, k - 1) + [Ballot(n, half, k - 1)]
    ensures |Ballot(n, half, k - 1).members| == n
  {
  }

  lemma NoBallotYet(n: nat, half: nat)
    ensures HalfOpen(Live(OPENED, Ballots(n, half, 0)), half, 0)
    ensures LastTally(OPENED, n, Ballots(n, half, 0)) == n
  {
    assert Side(OPENED.votes, Yes) == {} && Side(OPENED.votes, No) == {};
  }

  /** A run last counted at `n0` with one vote less than the majority on each side, and a count at `n1`. */
  lemma EvenSplit(n0: nat, n1: nat) returns (d: Dispute, actions: seq<Action>, a: Action)
    requires n0 >= 1 && !NoMoreNeeded(n0, n1)
    ensures Opened(d) && Live(d, actions).status == Voting && LastTally(d, n0, actions) == n0
    ensures Tallies(Live(d, actions), a) && |a.members| == n1 && BothReached(Balloted(Live(d, actions), a), n1)
  {
    var half := (n0 - 1) / 2;
    BallotsStayOpen(n0, half, 2 * half);
    d, actions, a := OPENED, Ballots(n0, half, 2 * half), TryAutoResolve(Members(n1), 0);
    hide Ballots, Live, LastTally, Tally;
    SplitReaches(Live(d, actions), half, n0, n1);
  }

  lemma SplitReaches(d: Dispute, half: nat, n0: nat, n1: nat)
    requires n0 >= 1 && half == (n0 - 1) / 2 && !NoMoreNeeded(n0, n1) && HalfOpen(d, half, 2 * half)
    ensures BothReached(d.votes, n1)
  {
    hide Tally;
  }

  /** One such run: of three members one votes yes and one no, the third leaves, and the next count resolves
      to yes although no has as many votes. */
  lemma ShrinkingLetsOrderDecide()
    ensures var d := Filed("g", "a", 0, 1);
            var members := ["a", "b", "c"];
            var run := Live(d, [CastVote(members, "a", Yes, 0, 0), CastVote(members, "b", No, 0, 0)]);
            var r := Apply(run, Action.TryAutoResolve(["a", "b"], 0)).0;
            && run.status == Voting && BothReached(run.votes, 2)
            && r.status == Resolved && r.decision == Some(Yes)
  {
    hide Apply, Tally, Filed, Live;
    var d, members := Filed("g", "a", 0, 1), ["a", "b", "c"];
    var one, two := CastVote(members, "a", Yes, 0, 0), CastVote(members, "b", No, 0, 0);
    assert [one, two] == [one] + [two] && [one] == [] + [one];
    NothingDone(d);
    LiveSnoc(d, [], one);
    LiveSnoc(d, [one], two);
    FirstVote(d, members);
    SecondVote(Apply(d, one).0, members);
    TieResolves(Apply(Apply(d, one).0, two).0);
  }

  lemma NothingDone(d: Dispute)
    ensures Live(d, []) == d
    ensures var filed := Filed("g", "a", 0, 1); Opened(filed) && filed.votingDeadline == 1000
  {
  }

  lemma FirstVote(d: Dispute, members: seq<string>)
    requires Opened(d) && d.votingDeadline >= 0 && members == ["a", "b", "c"]
    ensures Apply(d, CastVote(members, "a", Yes, 0, 0)).0 == d.(votes := map["a" := Yes])
    ensures Tally(map["a" := Yes], Yes) == 1 && Tally(map["a" := Yes], No) == 0
  {
    var votes := map["a" := Yes];
    assert d.votes["a" := Yes] == votes && "a" in members;
    assert Side(votes, Yes) == {"a"} && Side(votes, No) == {};
  }

  lemma SecondVote(d: Dispute, members: seq<string>)
    requires d.status == Voting && d.votes == map["a" := Yes] && d.votingDeadline >= 0 && members == ["a", "b", "c"]
    requires Tally(d.votes, Yes) == 1 && Tally(d.votes, No) == 0
    ensures var r := Apply(d, CastVote(members, "b", No, 0, 0)).0;
            r.status == Voting && Tally(r.votes, Yes) == 1 && Tally(r.votes, No) == 1
  {
    NewVoteCounts(d.votes, "b", No);
    hide Tally;
    assert "b" in members;
  }

  lemma TieResolves(d: Dispute)
    requires d.status == Voting && Tally(d.votes, Yes) == 1 && Tally(d.votes, No) == 1
    ensures BothReached(d.votes, 2)
    ensures var r := Apply(d, Action.TryAutoResolve(["a", "b"], 0)).0;
            r.status == Resolved && r.decision == Some(Yes)
  {
    hide Tally;
  }

  ghost predicate SameBallot(d: Dispute, e: Dispute) {
    d.votes == e.votes && d.decision == e.decision
  }

  lemma ClosedStaysClosed(d: Dispute, a: Action)
    requires d.status != Voting
    ensures Apply(d, a).0.status != Voting && SameBallot(Apply(d, a).0, d)
  {
  }

  /** Once voting is over it never re-opens, and votes and decision never change again: not by
      escalating a resolved dispute, not by an admin ruling. */
  lemma {:induction false} VotesAndDecisionFreeze(d: Dispute, actions: seq<Action>, more: seq<Action>)
    requires Live(d, actions).status != Voting
    ensures Live(d, actions + more).status != Voting
    ensures SameBallot(Live(d, actions + more), Live(d, actions))
  {
    if more == [] {
      assert actions + more == actions;
    } else {
      var init, last := more[..|more| - 1], more[|more| - 1];
      VotesAndDecisionFreeze(d, actions, init);
      assert actions + more == (actions + init) + [last];
      LiveSnoc(d, actions + init, last);
      ClosedStaysClosed(Live(d, actions + init), last);
    }
  }

  /** Some vote or tally moved the dispute from voting to resolved. */
  ghost predicate CommunityResolved(d: Dispute, actions: seq<Action>) {
    actions != []
    && (CommunityResolved(d, actions[..|actions| - 1])
        || (Live(d, actions[..|actions| - 1]).status == Voting && Live(d, actions).status == Resolved
            && Tallies(Live(d, actions[..|actions| - 1]), actions[|actions| - 1])))
  }

  /** A decision is on record exactly when the community resolved the dispute at some point. */
  lemma {:induction false} DecisionMeansCommunityResolved(d: Dispute, actions: seq<Action>)
    requires d.status == Voting && d.decision == None
    ensures Live(d, actions).decision.Some? <==> CommunityResolved(d, actions)
    ensures Live(d, actions).status == Voting ==> Live(d, actions).decision == None
  {
    if actions != [] {
      DecisionMeansCommunityResolved(d, actions[..|actions| - 1]);
    }
  }

  lemma {:induction false} DeadlineStays(d: Dispute, actions: seq<Action>)
    ensures Live(d, actions).votingDeadline == d.votingDeadline
  {
    if actions != [] {
      hide Tally;
      DeadlineStays(d, actions[..|actions| - 1]);
    }
  }

  /** A vote is taken, whatever happened since filing, exactly while voting is open, from members, and no later
      than `votingWindow` seconds after filing; otherwise the first of these that fails is the error. */
  lemma VoteTakenIff(groupId: string, filedBy: string, now: int, votingWindow: int, actions: seq<Action>, a: Action)
    requires a.CastVote?
    ensures var d := Live(Filed(groupId, filedBy, now, votingWindow), actions);
            var r := Apply(d, a).1;
            && (r.Done? <==> d.status == Voting && a.now <= now + 1000 * votingWindow && a.voter in a.members)
            && (r.Failed? ==>
                  r.error == if d.status != Voting then VotingNotOpen
                             else if a.now > now + 1000 * votingWindow then VotingEnded else NotMember)
  {
    DeadlineStays(Filed(groupId, filedBy, now, votingWindow), actions);
    hide Live, AutoResolve;
  }

  /** The dispute returned by a vote carries the new vote but never the resolution: it is what is stored iff
      neither side reaches the majority with that vote and the deadline has not passed by the count. */
  lemma ReturnedIsStoredIff(d: Dispute, a: Action)
    requires a.CastVote? && Apply(d, a).1.Done?
    ensures var votes := d.votes[a.voter := a.vote];
            && Apply(d, a).1.returned == d.(votes := votes)
            && Apply(d, a).0.votes == votes
            && (Apply(d, a).1.returned == Apply(d, a).0
                <==> 2 * Tally(votes, Yes) < |a.members| && 2 * Tally(votes, No) < |a.members|
                     && a.tallyNow <= d.votingDeadline)
  {
  }

  /** A vote of the first of two members: resolved in the store, still open in the reply. */
  lemma ResolvingVoteReturnsOpen()
    ensures var (stored, reply) := Apply(Filed("g", "a", 0, 1), CastVote(["a", "b"], "a", Yes, 0, 0));
            stored.status == Resolved && reply.Done? && reply.returned.status == Voting
  {
    HalfIsEnough();
  }

  /** Only people who were members when they voted have a vote on record. */
  lemma {:induction false} OnlyMembersVoted(d: Dispute, actions: seq<Action>, voter: string)
    requires d.votes == map[] && voter in Live(d, actions).votes
    ensures exists i :: 0 <= i < |actions| && actions[i].CastVote? && actions[i].voter == voter
              && voter in actions[i].members
  {
    var init, a := actions[..|actions| - 1], actions[|actions| - 1];
    if voter in Live(d, init).votes {
      OnlyMembersVoted(d, init, voter);
      var i :| 0 <= i < |init| && init[i].CastVote? && init[i].voter == voter && voter in init[i].members;
      assert actions[i] == init[i];
    }
  }

  // ---- The service over its store ----

  /** How a dispute was filed, with the size of the group then. */
  datatype Filing = Filing(groupId: string, filedBy: string, now: int, size: nat)

  /** A stored dispute is what its whole history has made of it. */
  ghost predicate IsLive(d: Dispute, f: Filing, votingWindow: int, actions: seq<Action>) {
    f.size >= 1 && d == Live(Filed(f.groupId, f.filedBy, f.now, votingWindow), actions)
  }

  lemma {:induction false} GroupStays(d: Dispute, actions: seq<Action>)
    ensures Live(d, actions).groupId == d.groupId
  {
    if actions != [] {
      GroupStays(d, actions[..|actions| - 1]);
    }
  }

  lemma IsLiveSnoc(d: Dispute, f: Filing, votingWindow: int, actions: seq<Action>, a: Action)
    requires IsLive(d, f, votingWindow, actions)
    ensures IsLive(Apply(d, a).0, f, votingWindow, actions + [a]) && Apply(d, a).0.groupId == d.groupId == f.groupId
  {
    LiveSnoc(Filed(f.groupId, f.filedBy, f.now, votingWindow), actions, a);
    GroupStays(Filed(f.groupId, f.filedBy, f.now, votingWindow), actions);
  }

  lemma LiveIsUndecided(d: Dispute, f: Filing, votingWindow: int, actions: seq<Action>)
    requires IsLive(d, f, votingWindow, actions) && d.status == Voting
    ensures var n := LastTally(Filed(f.groupId, f.filedBy, f.now, votingWindow), f.size, actions);
            NeitherReached(d, n) && |d.votes| < n
  {
    var filed := Filed(f.groupId, f.filedBy, f.now, votingWindow);
    VotingMeansUndecided(filed, f.size, actions);
    FullTurnoutDecides(filed, f.size, actions);
  }

  lemma LastCountIs(d: Dispute, f: Filing, votingWindow: int, actions: seq<Action>, a: Action)
    requires IsLive(d, f, votingWindow, actions) && Tallies(d, a)
    ensures LastTally(Filed(f.groupId, f.filedBy, f.now, votingWindow), f.size, actions + [a]) == |a.members|
  {
    assert (actions + [a])[..|actions|] == actions;
  }

  lemma OpenAfterVote(d: Dispute, f: Filing, votingWindow: int, actions: seq<Action>, a: Action)
    requires IsLive(d, f, votingWindow, actions) && a.CastVote? && Apply(d, a).1.Done?
    requires Apply(d, a).0.status == Voting
    ensures LastTally(Filed(f.groupId, f.filedBy, f.now, votingWindow), f.size, actions + [a]) == |a.members|
    ensures |Apply(d, a).0.votes| < |a.members|
  {
    LastCountIs(d, f, votingWindow, actions, a);
    IsLiveSnoc(d, f, votingWindow, actions, a);
    hide Apply, IsLive, LastTally;
    LiveIsUndecided(Apply(d, a).0, f, votingWindow, actions + [a]);
  }

  /** What a vote is, by cases. */
  lemma VoteIs(d: Dispute, members: seq<string>, voter: string, vote: Vote, now: int, tallyNow: int)
    ensures var outcome := Apply(d, CastVote(members, voter, vote, now, tallyNow));
            if d.status != Voting then outcome == (d, Failed(VotingNotOpen))
            else if d.votingDeadline < now then outcome == (d, Failed(VotingEnded))
            else if voter !in members then outcome == (d, Failed(NotMember))
            else
              var voted := d.(votes := d.votes[voter := vote]);
              outcome == (AutoResolve(voted, |members|, tallyNow), Done(voted))
  {
  }

  /** The index lists the disputes of each group, and nothing else. */
  ghost predicate Indexed(disputes: map<string, Dispute>, groupIndex: map<string, set<string>>) {
    && (forall id :: id in disputes ==>
          disputes[id].groupId in groupIndex && id in groupIndex[disputes[id].groupId])
    && (forall g :: g in groupIndex ==>
          forall id :: id in groupIndex[g] ==> id in disputes && disputes[id].groupId == g)
  }

  /** Every stored dispute is what its filing and its history have made of it. */
  ghost predicate AllLive(disputes: map<string, Dispute>, filings: map<string, Filing>,
                          history: map<string, seq<Action>>, votingWindow: int) {
    && disputes.Keys == filings.Keys == history.Keys
    && forall id :: id in disputes ==> IsLive(disputes[id], filings[id], votingWindow, history[id])
  }

  lemma StepKeepsLive(disputes: map<string, Dispute>, groupIndex: map<string, set<string>>,
                      filings: map<string, Filing>, history: map<string, seq<Action>>, votingWindow: int,
                      id: string, a: Action)
    requires Indexed(disputes, groupIndex) && AllLive(disputes, filings, history, votingWindow) && id in disputes
    ensures var d := Apply(disputes[id], a).0;
            && Indexed(disputes[id := d], groupIndex)
            && AllLive(disputes[id := d], filings, history[id := history[id] + [a]], votingWindow)
  {
    IsLiveSnoc(disputes[id], filings[id], votingWindow, history[id], a);
    hide Apply, IsLive;
  }

  lemma NewIsIndexed(disputes: map<string, Dispute>, groupIndex: map<string, set<string>>, id: string, d: Dispute)
    requires Indexed(disputes, groupIndex) && id !in disputes
    ensures var ids := if d.groupId in groupIndex then groupIndex[d.groupId] else {};
            Indexed(disputes[id := d], groupIndex[d.groupId := ids + {id}])
  {
  }

  lemma NewIsLive(disputes: map<string, Dispute>, filings: map<string, Filing>, history: map<string, seq<Action>>,
                  votingWindow: int, id: string, f: Filing)
    requires AllLive(disputes, filings, history, votingWindow) && f.size >= 1
    ensures var d := Filed(f.groupId, f.filedBy, f.now, votingWindow);
            AllLive(disputes[id := d], filings[id := f], history[id := []], votingWindow)
  {
    hide Filed;
  }

  lemma FiledIsUndecided(groupId: string, filedBy: string, now: int, votingWindow: int, n: nat)
    requires n >= 1
    ensures var d := Filed(groupId, filedBy, now, votingWindow);
            && NeitherReached(d, n) && LastTally(d, n, []) == n && d.groupId == groupId
            && d == Dispute(groupId, filedBy, Voting, map[], now + 1000 * votingWindow, None, None, None)
  {
    NoVotesYet(Filed(groupId, filedBy, now, votingWindow), n);
  }

  lemma CountIs(d: Dispute, members: seq<string>, now: int)
    ensures Apply(d, Action.TryAutoResolve(members, now)).0 == AutoResolve(d, |members|, now)
    ensures var r := AutoResolve(d, |members|, now); r.status == Voting ==> NeitherReached(r, |members|)
  {
    hide Tally;
  }

  lemma EscalationIs(d: Dispute)
    ensures Apply(d, Action.EscalateToAdmin).0 == d.(status := Escalated)
  {
  }

  lemma RulingIs(d: Dispute, admin: string, ruling: string)
    ensures Apply(d, Action.AdminResolve(admin, ruling)).0
            == d.(status := Resolved, resolvedBy := Some(admin), adminDecision := Some(ruling))
  {
  }

  lemma Recorded(disputes: map<string, Dispute>, filings: map<string, Filing>, history: map<string, seq<Action>>,
                 votingWindow: int, id: string)
    requires AllLive(disputes, filings, history, votingWindow) && id in disputes
    ensures id in filings && id in history
  {
  }

  lemma GroupIds(disputes: map<string, Dispute>, groupIndex: map<string, set<string>>, groupId: string)
    requires Indexed(disputes, groupIndex)
    ensures var ids := if groupId in groupIndex then groupIndex[groupId] else {};
            forall id :: id in ids <==> id in disputes && disputes[id].groupId == groupId
  {
  }

  class DisputeService {
    const votingWindow: int
    /** Disputes by id, and the ids filed for each group. */
    var disputes: map<string, Dispute>
    var groupIndex: map<string, set<string>>
    /** How each dispute was filed, and all that was ever done to it. */
    ghost var filings: map<string, Filing>
    ghost var history: map<string, seq<Action>>

    ghost predicate Valid()
      reads this
    {
      Indexed(disputes, groupIndex) && AllLive(disputes, filings, history, votingWindow)
    }

    /** The membership size at the last count of a dispute. */
    ghost function Counted(id: string): nat
      requires Valid() && id in disputes
      reads this
    {
      var f := filings[id];
      LastTally(Filed(f.groupId, f.filedBy, f.now, votingWindow), f.size, history[id])
    }

    constructor (votingWindow: int)
      ensures Valid() && disputes == map[] && this.votingWindow == votingWindow
    {
      this.votingWindow, disputes, groupIndex, filings, history := votingWindow, map[], map[], map[], map[];
    }

    method FileDispute(id: string, members: seq<string>, groupId: string, filedBy: string, now: int)
        returns (r: Outcome)
      requires Valid() && id !in disputes
      modifies this
      ensures Valid()
      ensures filedBy !in members ==>
                r == Failed(NotMember) && disputes == old(disputes) && groupIndex == old(groupIndex)
      ensures filedBy in members ==>
                && r == Done(Dispute(groupId, filedBy, Voting, map[], now + 1000 * votingWindow, None, None, None))
                && disputes == old(disputes)[id := r.returned] && history == old(history)[id := []]
                && Counted(id) == |members| && NeitherReached(r.returned, |members|)
    {
      hide Indexed, AllLive, Filed, NeitherReached, LastTally;
      if filedBy !in members {
        return Failed(NotMember);
      }
      var dispute := Filed(groupId, filedBy, now, votingWindow);
      FiledIsUndecided(groupId, filedBy, now, votingWindow, |members|);
      NewIsIndexed(disputes, groupIndex, id, dispute);
      NewIsLive(disputes, filings, history, votingWindow, id, Filing(groupId, filedBy, now, |members|));
      disputes := disputes[id := dispute];
      var ids := if groupId in groupIndex then groupIndex[groupId] else {};
      groupIndex := groupIndex[groupId := ids + {id}];
      filings, history := filings[id := Filing(groupId, filedBy, now, |members|)], history[id := []];
      return Done(dispute);
    }

    /** All disputes of the group, each once, and nothing else. */
    method ListGroupDisputes(groupId: string) returns (r: seq<(string, Dispute)>)
      requires Valid()
      ensures forall id, d :: (id, d) in r <==> id in disputes && disputes[id] == d && d.groupId == groupId
      ensures forall i, j :: 0 <= i < j < |r| ==> r[i].0 != r[j].0
    {
      GroupIds(disputes, groupIndex, groupId);
      hide Indexed, AllLive;
      r := [];
      var ids := if groupId in groupIndex then groupIndex[groupId] else {};
      var pending := ids;
      while pending != {}
        invariant pending <= ids
        invariant forall id, d :: (id, d) in r <==> id in ids - pending && id in disputes && disputes[id] == d
        invariant forall i, j :: 0 <= i < j < |r| ==> r[i].0 != r[j].0
        decreases |pending|
      {
        var id :| id in pending;
        assert forall i :: 0 <= i < |r| ==> (r[i].0, r[i].1) in r;
        r := r + [(id, disputes[id])];
        pending := pending - {id};
      }
    }

    /** The count over the stored votes, and what it stores. */
    method StoreCount(id: string, members: seq<string>, now: int) returns (r: Dispute)
      requires id in disputes
      modifies this`disputes
      ensures r == AutoResolve(old(disputes)[id], |members|, now)
      ensures disputes == old(disputes)[id := r]
      ensures r.status == Voting ==> NeitherReached(r, |members|)
    {
      var dispute := disputes[id];
      if dispute.status != Voting {
        assert disputes == disputes[id := dispute];
        return dispute;
      }
      var yes, no := Tally(dispute.votes, Yes), Tally(dispute.votes, No);
      var majority := Majority(|members|);
      if yes >= majority {
        dispute := dispute.(status := Resolved, decision := Some(Yes), resolvedBy := Some("community"));
      } else if no >= majority {
        dispute := dispute.(status := Resolved, decision := Some(No), resolvedBy := Some("community"));
      } else if dispute.votingDeadline < now {
        dispute := dispute.(status := Escalated);
      } else {
        assert disputes == disputes[id := dispute];
        return dispute;
      }
      disputes := disputes[id := dispute];
      return dispute;
    }

    method TryAutoResolve(id: string, members: seq<string>, now: int) returns (r: Option<Dispute>)
      requires Valid()
      modifies this`disputes, this`history
      ensures Valid()
      ensures id !in old(disputes) ==> r == None && disputes == old(disputes) && history == old(history)
      ensures id in old(disputes) ==>
                var a := Action.TryAutoResolve(members, now);
                && disputes == old(disputes)[id := Apply(old(disputes)[id], a).0]
                && history == old(history)[id := old(history)[id] + [a]]
                && r == Some(disputes[id])
      ensures r.Some? && r.value.status == Voting ==> NeitherReached(r.value, |members|)
    {
      hide Indexed, AllLive, Apply, AutoResolve, NeitherReached;
      if id !in disputes {
        return None;
      }
      ghost var a := Action.TryAutoResolve(members, now);
      Recorded(disputes, filings, history, votingWindow, id);
      StepKeepsLive(disputes, groupIndex, filings, history, votingWindow, id, a);
      CountIs(disputes[id], members, now);
      var dispute := StoreCount(id, members, now);
      history := history[id := history[id] + [a]];
      return Some(dispute);
    }

    /** After a vote that leaves the dispute open, neither side has the majority of the members counted and
        somebody has not voted. */
    method VoteOnDispute(id: string, members: seq<string>, voter: string, vote: Vote, now: int, tallyNow: int)
        returns (r: Outcome)
      requires Valid()
      modifies this`disputes, this`history
      ensures Valid()
      ensures id !in old(disputes) ==> r == Failed(NotFound) && disputes == old(disputes) && history == old(history)
      ensures id in old(disputes) ==>
                var a := CastVote(members, voter, vote, now, tallyNow);
                && disputes == old(disputes)[id := Apply(old(disputes)[id], a).0]
                && history == old(history)[id := old(history)[id] + [a]]
                && r == Apply(old(disputes)[id], a).1
      ensures r.Failed? ==> disputes == old(disputes)
      ensures r.Done? && disputes[id].status == Voting ==>
                && NeitherReached(disputes[id], |members|) && Counted(id) == |members|
                && |disputes[id].votes| < |members|
    {
      hide Indexed, Apply, NeitherReached, LastTally, Live, IsLive;
      if id !in disputes {
        return Failed(NotFound);
      }
      ghost var a := CastVote(members, voter, vote, now, tallyNow);
      ghost var d, f, past := disputes[id], filings[id], history[id];
      StepKeepsLive(disputes, groupIndex, filings, history, votingWindow, id, a);
      assert IsLive(d, f, votingWindow, past);
      hide AllLive;
      r := StoreVote(id, members, voter, vote, now, tallyNow);
      history := history[id := history[id] + [a]];
      if r.Done? && disputes[id].status == Voting {
        OpenAfterVote(d, f, votingWindow, past, a);
      }
    }

    /** A vote and the count that follows it, as they are stored. */
    method StoreVote(id: string, members: seq<string>, voter: string, vote: Vote, now: int, tallyNow: int)
        returns (r: Outcome)
      requires id in disputes
      modifies this`disputes
      ensures var (after, outcome) := Apply(old(disputes)[id], CastVote(members, voter, vote, now, tallyNow));
              disputes == old(disputes)[id := after] && r == outcome
      ensures r.Failed? ==> disputes == old(disputes)
      ensures r.Done? && disputes[id].status == Voting ==> NeitherReached(disputes[id], |members|)
    {
      var dispute := disputes[id];
      VoteIs(dispute, members, voter, vote, now, tallyNow);
      hide Apply, AutoResolve, NeitherReached;
      if dispute.status != Voting || dispute.votingDeadline < now || voter !in members {
        assert disputes == disputes[id := dispute];
        return Failed(if dispute.status != Voting then VotingNotOpen
                      else if dispute.votingDeadline < now then VotingEnded else NotMember);
      }
      dispute := dispute.(votes := dispute.votes[voter := vote]);
      disputes := disputes[id := dispute];
      var counted := StoreCount(id, members, tallyNow);
      assert disputes == old(disputes)[id := counted];
      return Done(dispute);
    }

    method EscalateToAdmin(id: string) returns (r: Outcome)
      requires Valid()
      modifies this`disputes, this`history
      ensures Valid()
      ensures id !in old(disputes) ==> r == Failed(NotFound) && disputes == old(disputes) && history == old(history)
      ensures id in old(disputes) ==>
                && disputes == old(disputes)[id := old(disputes)[id].(status := Escalated)]
                && history == old(history)[id := old(history)[id] + [Action.EscalateToAdmin]]
                && r == Done(disputes[id])
    {
      hide Indexed, AllLive, Apply;
      if id !in disputes {
        return Failed(NotFound);
      }
      var dispute := disputes[id].(status := Escalated);
      Recorded(disputes, filings, history, votingWindow, id);
      StepKeepsLive(disputes, groupIndex, filings, history, votingWindow, id, Action.EscalateToAdmin);
      EscalationIs(disputes[id]);
      history := history[id := history[id] + [Action.EscalateToAdmin]];
      disputes := disputes[id := dispute];
      return Done(dispute);
    }

    method AdminResolve(id: string, admin: string, ruling: string) returns (r: Outcome)
      requires Valid()
      modifies this`disputes, this`history
      ensures Valid()
      ensures id !in old(disputes) ==> r == Failed(NotFound) && disputes == old(disputes) && history == old(history)
      ensures id in old(disputes) ==>
                && disputes.Keys == old(disputes.Keys) && r == Done(disputes[id])
                && (forall other :: other in disputes && other != id ==> disputes[other] == old(disputes)[other])
                && disputes[id].status == Resolved && disputes[id].resolvedBy == Some(admin)
                && disputes[id].adminDecision == Some(ruling) && SameBallot(disputes[id], old(disputes)[id])
                && history == old(history)[id := old(history)[id] + [Action.AdminResolve(admin, ruling)]]
    {
      hide Indexed, AllLive, Apply;
      if id !in disputes {
        return Failed(NotFound);
      }
      ghost var a := Action.AdminResolve(admin, ruling);
      var dispute := disputes[id].(status := Resolved, resolvedBy := Some(admin), adminDecision := Some(ruling));
      Recorded(disputes, filings, history, votingWindow, id);
      StepKeepsLive(disputes, groupIndex, filings, history, votingWindow, id, a);
      RulingIs(disputes[id], admin, ruling);
      history := history[id := history[id] + [a]];
      disputes := disputes[id := dispute];
      return Done(dispute);
    }
  }
}
