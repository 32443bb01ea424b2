/**
 A disputed transaction: the votes of the peers, their tallies, and our own vote, which
 yields to a threshold that rises with the time spent on the round.

 Line numbers are those of src/ripple/consensus/DisputedTx.h.
 */
module Dispute {
  import opened Bits

  // ---- thresholds (in percent of the time, and of the votes) ----

  const MID_TIME := 50
  const LATE_TIME := 85
  const STUCK_TIME := 200
  const INIT_PCT := 50
  const MID_PCT := 65
  const LATE_PCT := 70
  const STUCK_PCT := 95

  /** An int compared with a size_t is first converted to one. */
  function AsSize(x: int): int {
    if x < 0 then x + 0x1_0000_0000_0000_0000 else x
  }

  function Threshold(percentTime: int): nat {
    var t := AsSize(percentTime);
    if t < MID_TIME then INIT_PCT
    else if t < LATE_TIME then MID_PCT
    else if t < STUCK_TIME then LATE_PCT
    else STUCK_PCT
  }

  /** The share of yes votes in percent, ours among them. */
  function Weight(yays: nat, nays: nat, ours: bool): nat {
    (yays * 100 + if ours then 100 else 0) / (nays + yays + 1)
  }

  /** Our vote after an update. */
  function NextVote(yays: nat, nays: nat, ours: bool, percentTime: int, proposing: bool): bool {
    if ours && nays == 0 then true
    else if !ours && yays == 0 then false
    else if proposing then Weight(yays, nays, ours) > Threshold(percentTime)
    else yays > nays
  }

  /** The weight exceeds a percentage. */
  lemma WeightAbove(yays: nat, nays: nat, ours: bool, pct: nat)
    ensures Weight(yays, nays, ours) > pct <==> 100 * (yays + if ours then 1 else 0) >= (pct + 1) * (yays + nays + 1)
  {
    var share, all := yays * 100 + (if ours then 100 else 0), nays + yays + 1;
    var w, r := share / all, share % all;
    assert share == w * all + r;
    if w > pct {
      MulStrict(pct, w, all);
    } else {
      MulStrict(w, pct + 1, all);
    }
    Distribute(pct, 1, all);
  }

  /** Our vote while proposing, by the votes cast and the time, an int; a negative one counts as late. */
  lemma VoteIs(yays: nat, nays: nat, ours: bool, t: int)
    ensures var share, all := 100 * (yays + if ours then 1 else 0), yays + nays + 1;
            -0x8000_0000 <= t ==>
              NextVote(yays, nays, ours, t, true) == if 0 <= t < 50 then share >= 51 * all
                                                     else if 50 <= t < 85 then share >= 66 * all
                                                     else if 85 <= t < 200 then share >= 71 * all
                                                     else share >= 96 * all
  {
    WeightDecides(yays, nays, ours, t);
    WeightAbove(yays, nays, ours, 50);
    WeightAbove(yays, nays, ours, 65);
    WeightAbove(yays, nays, ours, 70);
    WeightAbove(yays, nays, ours, 95);
  }

  // ---- the object ----

  function Voters<Node>(votes: map<Node, bool>, yes: bool): set<Node> {
    set n | n in votes && votes[n] == yes
  }

  /** What setting one entry does to the number of voters of one kind. */
  lemma TallyUpdate<Node>(votes: map<Node, bool>, n: Node, v: bool, yes: bool)
    ensures |Voters(votes[n := v], yes)|
         == |Voters(votes, yes)| - (if n in votes && votes[n] == yes then 1 else 0) + (if v == yes then 1 else 0)
  {
    var others := Voters(votes, yes) - {n};
    assert Voters(votes[n := v], yes) == (if v == yes then others + {n} else others);
  }

  lemma TallyRemove<Node>(votes: map<Node, bool>, n: Node, yes: bool)
    ensures |Voters(votes - {n}, yes)| == |Voters(votes, yes)| - (if n in votes && votes[n] == yes then 1 else 0)
  {
    assert Voters(votes - {n}, yes) == Voters(votes, yes) - {n};
  }

  class DisputedTx<Node(==)> {
    var yays: int
    var nays: int
    var ourVote: bool
    var votes: map<Node, bool>

    /** The tallies are those of the votes. */
    ghost predicate Valid()
      reads this
    {
      yays == |Voters(votes, true)| && nays == |Voters(votes, false)|
    }

    constructor (ourVote: bool)
      ensures Valid() && votes == map[] && this.ourVote == ourVote
    {
      yays, nays, votes := 0, 0, map[];
      this.ourVote := ourVote;
      new;
      assert Voters(votes, true) == {} && Voters(votes, false) == {};
    }

    method SetVote(peer: Node, votesYes: bool)
      requires Valid()
      modifies this
      ensures Valid() && votes == old(votes)[peer := votesYes] && ourVote == old(ourVote)
    {
      hide Voters;
      TallyUpdate(votes, peer, votesYes, true);
      TallyUpdate(votes, peer, votesYes, false);
      if peer !in votes {
        votes := votes[peer := votesYes];
        if votesYes {
          yays := yays + 1;
        } else {
          nays := nays + 1;
        }
      } else if votesYes && !votes[peer] {
        nays := nays - 1;
        yays := yays + 1;
        votes := votes[peer := true];
      } else if !votesYes && votes[peer] {
        nays := nays + 1;
        yays := yays - 1;
        votes := votes[peer := false];
      } else {
        assert votes == votes[peer := votesYes];
      }
    }

    method UnVote(peer: Node)
      requires Valid()
      modifies this
      ensures Valid() && votes == old(votes) - {peer} && ourVote == old(ourVote)
    {
      hide Voters;
      TallyRemove(votes, peer, true);
      TallyRemove(votes, peer, false);
      if peer in votes {
        if votes[peer] {
          yays := yays - 1;
        } else {
          nays := nays - 1;
        }
        votes := votes - {peer};
      } else {
        assert votes == votes - {peer};
      }
    }

    method UpdateVote(percentTime: int, proposing: bool) returns (changed: bool)
      requires Valid()
      modifies `ourVote
      ensures Valid() && changed == (ourVote != old(ourVote))
      ensures ourVote == NextVote(|Voters(votes, true)|, |Voters(votes, false)|, old(ourVote), percentTime, proposing)
      ensures var yes, no := |Voters(votes, true)|, |Voters(votes, false)|;
              if proposing then
                var share, all := 100 * (yes + if old(ourVote) then 1 else 0), yes + no + 1;
                -0x8000_0000 <= percentTime ==>
                  ourVote == if 0 <= percentTime < 50 then share >= 51 * all
                             else if 50 <= percentTime < 85 then share >= 66 * all
                             else if 85 <= percentTime < 200 then share >= 71 * all
                             else share >= 96 * all
              else ourVote == (yes > no || (no == 0 && old(ourVote)))
    {
      VoteIs(|Voters(votes, true)|, |Voters(votes, false)|, ourVote, percentTime);
      if ourVote && nays == 0 {
        return false;
      }
      if !ourVote && yays == 0 {
        return false;
      }
      var newPosition: bool;
      if proposing {
        var weight := (yays * 100 + if ourVote then 100 else 0) / (nays + yays + 1);
        if AsSize(percentTime) < MID_TIME {
          newPosition := AsSize(weight) > INIT_PCT;
        } else if AsSize(percentTime) < LATE_TIME {
          newPosition := AsSize(weight) > MID_PCT;
        } else if AsSize(percentTime) < STUCK_TIME {
          newPosition := AsSize(weight) > LATE_PCT;
        } else {
          newPosition := AsSize(weight) > STUCK_PCT;
        }
      } else {
        newPosition := yays > nays;
      }
      if newPosition == ourVote {
        return false;
      }
      ourVote := newPosition;
      return true;
    }
  }

  // ---- runs of updates with the peers' votes fixed ----

  /** Our votes over a run: the first is the one we start with. */
  function Run(yays: nat, nays: nat, ours: bool, times: seq<int>): (votes: seq<bool>)
    ensures |votes| == |times| + 1 && votes[0] == ours
    decreases |times|
  {
    if times == [] then [ours]
    else [ours] + Run(yays, nays, NextVote(yays, nays, ours, times[0], true), times[1..])
  }

  /** The thresholds in force never fall. */
  predicate Rising(times: seq<int>) {
    forall i, j :: 0 <= i < j < |times| ==> Threshold(times[i]) <= Threshold(times[j])
  }

  function Changes(votes: seq<bool>): nat {
    if |votes| < 2 then 0 else (if votes[0] != votes[1] then 1 else 0) + Changes(votes[1..])
  }

  /** No, then Yes, then No, each for any number of steps. */
  predicate OneStretchOfYes(votes: seq<bool>) {
    forall i, j, k :: 0 <= i < j < k < |votes| && votes[i] && votes[k] ==> votes[j]
  }

  /** Times that do not fall, read as unsigned numbers, give thresholds that do not fall. */
  lemma LaterIsRising(times: seq<int>)
    requires forall i, j :: 0 <= i < j < |times| ==> AsSize(times[i]) <= AsSize(times[j])
    ensures Rising(times)
  {
  }

  lemma OurVoteWeighs(yays: nat, nays: nat)
    ensures Weight(yays, nays, false) <= Weight(yays, nays, true)
  {
    DivMonotone(yays * 100, yays * 100 + 100, nays + yays + 1);
  }

  lemma DivMonotone(a: nat, b: nat, m: nat)
    requires a <= b && m >= 1
    ensures a / m <= b / m
  {
    if a / m > b / m {
      MulStrict(b / m, a / m, m);
    }
  }

  /** Once we have given up a Yes, no later update brings it back. */
  lemma {:induction false} GivenUp(yays: nat, nays: nat, bar: nat, times: seq<int>)
    requires Weight(yays, nays, true) <= bar && forall i :: 0 <= i < |times| ==> bar <= Threshold(times[i])
    ensures forall i :: 0 <= i <= |times| ==> !Run(yays, nays, false, times)[i]
  {
    if times != [] {
      OurVoteWeighs(yays, nays);
      assert bar <= Threshold(times[0]);
      assert !NextVote(yays, nays, false, times[0], true);
      forall i | 0 <= i < |times[1..]| ensures bar <= Threshold(times[1..][i]) {
        assert times[1..][i] == times[i + 1];
      }
      GivenUp(yays, nays, bar, times[1..]);
    }
  }

  /** With rising thresholds and fixed peers, our vote goes from No to Yes to No at most once. */
  lemma {:induction false} OneStretch(yays: nat, nays: nat, ours: bool, times: seq<int>)
    requires Rising(times)
    ensures OneStretchOfYes(Run(yays, nays, ours, times))
    decreases |times|
  {
    if times != [] {
      var next := NextVote(yays, nays, ours, times[0], true);
      var rest := Run(yays, nays, next, times[1..]);
      OneStretch(yays, nays, next, times[1..]);
      if ours && !next {
        assert Weight(yays, nays, true) <= Threshold(times[0]);
        forall i | 0 <= i < |times[1..]| ensures Threshold(times[0]) <= Threshold(times[1..][i]) {
          assert times[1..][i] == times[i + 1];
        }
        GivenUp(yays, nays, Threshold(times[0]), times[1..]);
      }
      StretchExtends(ours, rest);
    }
  }

  lemma StretchExtends(first: bool, rest: seq<bool>)
    requires |rest| >= 1 && OneStretchOfYes(rest)
    requires first && !rest[0] ==> forall i :: 0 <= i < |rest| ==> !rest[i]
    ensures OneStretchOfYes([first] + rest)
  {
    var all := [first] + rest;
    forall i, j, k | 0 <= i < j < k < |all| && all[i] && all[k] ensures all[j] {
      assert all[j] == rest[j - 1] && all[k] == rest[k - 1];
      if i == 0 {
        if j > 1 {
          assert rest[0] && rest[k - 1];
        }
      } else {
        assert all[i] == rest[i - 1];
      }
    }
  }

  /** So there are at most two changes, and at most one from a Yes. */
  lemma {:induction false} AtMostTwoChanges(votes: seq<bool>)
    requires |votes| >= 1 && OneStretchOfYes(votes)
    ensures Changes(votes) <= (if votes[0] then 1 else 2)
    ensures votes[0] && !votes[|votes| - 1] ==> Changes(votes) == 1
  {
    if |votes| >= 2 {
      var rest := votes[1..];
      forall i, j, k | 0 <= i < j < k < |rest| && rest[i] && rest[k] ensures rest[j] {
        assert votes[i + 1] && votes[k + 1];
        assert votes[j + 1] == rest[j];
      }
      AtMostTwoChanges(rest);
      if votes[0] && !votes[1] {
        forall k | 0 <= k < |rest| ensures !rest[k] {
          assert k > 0 ==> rest[k] == votes[k + 1];
        }
        AllNo(rest);
      }
    }
  }

  lemma {:induction false} AllNo(votes: seq<bool>)
    requires forall k :: 0 <= k < |votes| ==> !votes[k]
    ensures Changes(votes) == 0
  {
    if |votes| >= 2 {
      AllNo(votes[1..]);
    }
  }

  /** Votes of the peers that weigh w percent whatever our own vote. */
  lemma EvenWeight(w: nat, ours: bool)
    requires 1 <= w <= 99
    ensures Weight(10 * w, 999 - 10 * w, ours) == w
  {
  }

  /** With such peers our vote is the comparison of the latest threshold with w. */
  lemma {:induction false} VoteFollowsThreshold(w: nat, ours: bool, times: seq<int>, i: nat)
    requires 1 <= w <= 99 && i < |times|
    ensures Run(10 * w, 999 - 10 * w, ours, times)[i + 1] == (w > Threshold(times[i]))
    decreases i
  {
    var next := NextVote(10 * w, 999 - 10 * w, ours, times[0], true);
    EvenWeight(w, ours);
    if i > 0 {
      VoteFollowsThreshold(w, next, times[1..], i - 1);
    }
  }

  /** A threshold that falls back lets a Yes return. */
  lemma FallingBreaks(times: seq<int>, i: nat, j: nat)
    requires i < j < |times| && Threshold(times[i]) > Threshold(times[j])
    ensures var w := Threshold(times[i]); !OneStretchOfYes(Run(10 * w, 999 - 10 * w, true, times))
  {
    var w := Threshold(times[i]);
    VoteFollowsThreshold(w, true, times, i);
    VoteFollowsThreshold(w, true, times, j);
    var votes := Run(10 * w, 999 - 10 * w, true, times);
    assert votes[0] && !votes[i + 1] && votes[j + 1];
  }

  /** Whatever the peers' votes and our first one, our Yes votes are consecutive. */
  ghost predicate AlwaysOneStretch(times: seq<int>) {
    forall yays: nat, nays: nat, ours: bool :: OneStretchOfYes(Run(yays, nays, ours, times))
  }

  /** That is so if and only if the thresholds at the times of the updates never fall. */
  lemma OneStretchIff(times: seq<int>)
    ensures AlwaysOneStretch(times) <==> Rising(times)
  {
    if Rising(times) {
      forall yays: nat, nays: nat, ours: bool ensures OneStretchOfYes(Run(yays, nays, ours, times)) {
        OneStretch(yays, nays, ours, times);
      }
    } else {
      var i, j :| 0 <= i < j < |times| && Threshold(times[i]) > Threshold(times[j]);
      FallingBreaks(times, i, j);
    }
  }

  /** Any run of updates while proposing, with the peers' votes fixed. */
  lemma RunChangesAtMostTwice(yays: nat, nays: nat, ours: bool, times: seq<int>)
    requires Rising(times)
    ensures OneStretchOfYes(Run(yays, nays, ours, times)) && Changes(Run(yays, nays, ours, times)) <= 2
  {
    OneStretchIff(times);
    AtMostTwoChanges(Run(yays, nays, ours, times));
  }

  /** A negative time reads as a huge one: the threshold falls after it, and three changes follow. */
  lemma NegativeTimeBreaks()
    ensures !Rising([-1, 0, 200]) && Changes(Run(3, 1, true, [-1, 0, 200])) == 3
  {
    var times := [-1, 0, 200];
    assert Threshold(times[0]) > Threshold(times[1]);
    assert Run(3, 1, false, [0, 200]) == [false] + Run(3, 1, true, [200]);
    assert Run(3, 1, true, [200]) == [true] + Run(3, 1, false, []);
    assert [-1, 0, 200][1..] == [0, 200] && [0, 200][1..] == [200];
    assert Run(3, 1, true, [-1, 0, 200]) == [true, false, true, false];
    assert Changes([true, false, true, false]) == 1 + Changes([true, false, true, false][1..]);
    assert [true, false, true, false][1..] == [false, true, false] && [false, true, false][1..] == [true, false]
        && [true, false][1..] == [false];
  }

  /** While proposing, the two early returns change nothing: the weight alone decides. */
  lemma WeightDecides(yays: nat, nays: nat, ours: bool, percentTime: int)
    ensures NextVote(yays, nays, ours, percentTime, true) <==> Weight(yays, nays, ours) > Threshold(percentTime)
  {
    if ours && nays == 0 {
      assert yays * 100 + 100 == 100 * (yays + 1);
      assert Weight(yays, nays, ours) == 100;
    } else if !ours && yays == 0 {
      assert Weight(yays, nays, ours) == 0;
    }
  }

  /** Not proposing, one update settles the vote. */
  lemma ObserverSettles(yays: nat, nays: nat, ours: bool, s: int, t: int)
    ensures var next := NextVote(yays, nays, ours, s, false);
            NextVote(yays, nays, next, t, false) == next
  {
  }
}
