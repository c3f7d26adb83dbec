/** The weighted round robin scheduler (WeightedRoundRobin.java, weighted_round_robin.py). */
module RoundRobin {

  /** The largest weight, or 0 if there is none. */
  function MaxWeight(weights: seq<int>): (m: int)
    ensures weights != [] ==> m in weights && forall i :: 0 <= i < |weights| ==> weights[i] <= m
    ensures weights == [] ==> m == 0
  {
    if weights == [] then 0
    else if |weights| == 1 then weights[0]
    else
      var m := MaxWeight(weights[..|weights|-1]);
      assert m in weights[..|weights|-1];
      if weights[|weights|-1] > m then weights[|weights|-1] else m
  }

  /** The weight a server must have to be picked in pass `p` over the servers. */
  function LevelAt(weights: seq<int>, p: nat): (level: int)
    requires weights != []
    ensures level <= MaxWeight(weights)
  {
    if p == 0 || LevelAt(weights, p - 1) - 1 <= 0 then MaxWeight(weights) else LevelAt(weights, p - 1) - 1
  }

  /** The servers picked among the first `n` at one level. */
  function PassPicks(weights: seq<int>, level: int, n: nat): seq<nat>
    requires n <= |weights|
  {
    if n == 0 then []
    else if weights[n-1] >= level then PassPicks(weights, level, n - 1) + [n - 1]
    else PassPicks(weights, level, n - 1)
  }

  /** The servers picked in the first `p` passes. */
  function Picks(weights: seq<int>, p: nat): seq<nat>
    requires weights != []
  {
    if p == 0 then [] else Picks(weights, p - 1) + PassPicks(weights, LevelAt(weights, p - 1), |weights|)
  }

  /** The servers picked before server `n` of pass `p` comes up. */
  function PicksUpTo(weights: seq<int>, p: nat, n: nat): seq<nat>
    requires n <= |weights| && weights != []
  {
    Picks(weights, p) + PassPicks(weights, LevelAt(weights, p), n)
  }

  class WeightedRoundRobin {
    const servers: seq<string>
    const weights: seq<int>
    var currentIndex: int
    var currentWeight: int

    // The current pass, and every server returned so far.
    ghost var pass: nat
    ghost var served: seq<nat>

    constructor (servers: seq<string>, weights: seq<int>)
      requires |servers| == |weights| > 0
      ensures this.servers == servers && this.weights == weights
      ensures Valid() && served == []
    {
      this.servers, this.weights := servers, weights;
      currentIndex, currentWeight, pass, served := -1, 0, 0, [];
    }

    /** What has been served is what the passes so far have picked. */
    ghost predicate Valid()
      reads this
    {
      && |servers| == |weights| > 0
      && -1 <= currentIndex < |weights|
      && (if currentIndex == -1 then pass == 0 && currentWeight == 0 else currentWeight == LevelAt(weights, pass))
      && served == PicksUpTo(weights, pass, currentIndex + 1)
    }

    /** Returns one server, after at most one step per server. */
    method GetNextServer() returns (server: string, ghost steps: nat)
      requires Valid()
      modifies this
      ensures Valid() && currentIndex >= 0
      ensures served == old(served) + [currentIndex] && server == servers[currentIndex]
      ensures 1 <= steps <= |servers|
    {
      ghost var top :| 0 <= top < |weights| && weights[top] == MaxWeight(weights);
      steps := 0;
      while true
        invariant Valid() && served == old(served)
        invariant steps + StepsTo(top) <= |servers|
        decreases StepsTo(top)
      {
        steps := steps + 1;
        Step();
        if weights[currentIndex] >= currentWeight {
          served := served + [currentIndex];
          return servers[currentIndex], steps;
        }
      }
    }

    /** Moves on to the next server, and to the next level after the last one. */
    method Step()
      requires Valid()
      modifies this`currentIndex, this`currentWeight, this`pass
      ensures currentIndex == if old(currentIndex) + 1 == |servers| then 0 else old(currentIndex) + 1
      ensures currentWeight == LevelAt(weights, pass)
      ensures served == PicksUpTo(weights, pass, currentIndex)
    {
      hide LevelAt, MaxWeight, PicksUpTo;
      ghost var turns := currentIndex == |servers| - 1;
      GoesRound(currentIndex, |servers|);
      FirstPass(weights);
      NextPass(weights, pass);
      currentIndex := (currentIndex + 1) % |servers|;
      if currentIndex == 0 {
        currentWeight := currentWeight - 1;
        if currentWeight <= 0 {
          currentWeight := MaxWeight(weights);
        }
        if turns {
          pass := pass + 1;
        }
      }
    }

    /** How many steps lead to server `top`. */
    ghost function StepsTo(top: int): int
      reads this
    {
      if currentIndex < top then top - currentIndex else |weights| - currentIndex + top
    }
  }

  lemma GoesRound(i: int, n: nat)
    requires -1 <= i < n && n > 0
    ensures (i + 1) % n == if i + 1 == n then 0 else i + 1
  {
  }

  lemma FirstPass(weights: seq<int>)
    requires weights != []
    ensures LevelAt(weights, 0) == MaxWeight(weights)
  {
  }

  /** The next pass goes on from the end of one, at the next level. */
  lemma NextPass(weights: seq<int>, p: nat)
    requires weights != []
    ensures LevelAt(weights, p + 1) ==
      if LevelAt(weights, p) - 1 <= 0 then MaxWeight(weights) else LevelAt(weights, p) - 1
    ensures PicksUpTo(weights, p + 1, 0) == PicksUpTo(weights, p, |weights|)
  {
    hide LevelAt, MaxWeight;
    LevelStep(weights, p);
    assert PassPicks(weights, LevelAt(weights, p + 1), 0) == [];
  }

  lemma LevelStep(weights: seq<int>, p: nat)
    requires weights != []
    ensures LevelAt(weights, p + 1) ==
      if LevelAt(weights, p) - 1 <= 0 then MaxWeight(weights) else LevelAt(weights, p) - 1
  {
  }

  // ---------- fairness ----------

  /** The number of passes after which the levels start over. */
  function Period(weights: seq<int>): (period: nat)
    requires weights != []
    ensures period >= 1
  {
    if MaxWeight(weights) >= 1 then MaxWeight(weights) else 1
  }

  /** One full cycle of picks. */
  function Cycle(weights: seq<int>): seq<nat>
    requires weights != []
  {
    Picks(weights, Period(weights))
  }

  /** How often a server is due in one cycle: its weight; without positive weights, only the largest count. */
  function Share(weights: seq<int>, i: nat): nat
    requires i < |weights|
  {
    if MaxWeight(weights) >= 1 then (if weights[i] > 0 then weights[i] else 0)
    else if weights[i] == MaxWeight(weights) then 1 else 0
  }

  lemma {:induction false} FirstLevels(weights: seq<int>, p: nat)
    requires weights != [] && p < Period(weights)
    ensures LevelAt(weights, p) == MaxWeight(weights) - p
  {
    if p > 0 {
      FirstLevels(weights, p - 1);
    }
  }

  lemma {:induction false} LevelsRepeat(weights: seq<int>, p: nat)
    requires weights != []
    ensures LevelAt(weights, Period(weights) + p) == LevelAt(weights, p)
  {
    if p == 0 {
      FirstLevels(weights, Period(weights) - 1);
    } else {
      LevelsRepeat(weights, p - 1);
    }
  }

  lemma {:induction false} PicksRepeat(weights: seq<int>, p: nat)
    requires weights != []
    ensures Picks(weights, Period(weights) + p) == Cycle(weights) + Picks(weights, p)
  {
    if p > 0 {
      PicksRepeat(weights, p - 1);
      LevelsRepeat(weights, p - 1);
    } else {
      assert Cycle(weights) + [] == Cycle(weights);
    }
  }

  /** How many of the servers picked are server `i`. */
  function CountOf(picks: seq<nat>, i: nat): nat {
    if picks == [] then 0 else CountOf(picks[..|picks|-1], i) + if picks[|picks|-1] == i then 1 else 0
  }

  lemma {:induction false} CountConcat(a: seq<nat>, b: seq<nat>, i: nat)
    ensures CountOf(a + b, i) == CountOf(a, i) + CountOf(b, i)
  {
    if b == [] {
      assert a + b == a;
    } else {
      CountConcat(a, b[..|b|-1], i);
      assert (a + b)[..|a + b|-1] == a + b[..|b|-1];
    }
  }

  lemma {:induction false} PassCount(weights: seq<int>, level: int, n: nat, i: nat)
    requires n <= |weights| && i < |weights|
    ensures CountOf(PassPicks(weights, level, n), i) == if i < n && weights[i] >= level then 1 else 0
  {
    if n > 0 {
      PassCount(weights, level, n - 1, i);
    }
  }

  /** After the first `p` passes of a cycle, a server has been picked as often as its weight is above the level. */
  lemma {:induction false} PicksCount(weights: seq<int>, p: nat, i: nat)
    requires i < |weights| && p <= Period(weights)
    ensures var above := weights[i] - (MaxWeight(weights) - p);
      CountOf(Picks(weights, p), i) == if above > 0 then above else 0
  {
    hide LevelAt, MaxWeight, PassPicks, CountOf, Period;
    if p == 0 {
      NothingPicked(weights, i);
    } else {
      PicksCount(weights, p - 1, i);
      FirstLevels(weights, p - 1);
      PassCount(weights, LevelAt(weights, p - 1), |weights|, i);
      CountConcat(Picks(weights, p - 1), PassPicks(weights, LevelAt(weights, p - 1), |weights|), i);
    }
  }

  lemma NothingPicked(weights: seq<int>, i: nat)
    requires i < |weights|
    ensures CountOf(Picks(weights, 0), i) == 0 && weights[i] <= MaxWeight(weights)
  {
  }

  /** A cycle picks every server exactly as often as it is due. */
  lemma CycleIsFair(weights: seq<int>, i: nat)
    requires i < |weights|
    ensures CountOf(Cycle(weights), i) == Share(weights, i)
  {
    PicksCount(weights, Period(weights), i);
  }

  function SharesUpTo(weights: seq<int>, n: nat): nat
    requires n <= |weights|
  {
    if n == 0 then 0 else SharesUpTo(weights, n - 1) + Share(weights, n - 1)
  }

  function CountsUpTo(picks: seq<nat>, n: nat): nat {
    if n == 0 then 0 else CountsUpTo(picks, n - 1) + CountOf(picks, n - 1)
  }

  lemma {:induction false} CountsOfOneMore(picks: seq<nat>, pick: nat, n: nat)
    ensures CountsUpTo(picks + [pick], n) == CountsUpTo(picks, n) + if pick < n then 1 else 0
  {
    if n > 0 {
      CountsOfOneMore(picks, pick, n - 1);
      CountConcat(picks, [pick], n - 1);
      assert [pick][..0] == [];
    }
  }

  lemma {:induction false} CountsAreLength(picks: seq<nat>, n: nat)
    requires forall k :: 0 <= k < |picks| ==> picks[k] < n
    ensures CountsUpTo(picks, n) == |picks|
  {
    if picks == [] {
      NoCounts(n);
    } else {
      var before := picks[..|picks|-1];
      CountsAreLength(before, n);
      CountsOfOneMore(before, picks[|picks|-1], n);
      assert before + [picks[|picks|-1]] == picks;
    }
  }

  lemma {:induction false} NoCounts(n: nat)
    ensures CountsUpTo([], n) == 0
  {
    if n > 0 {
      NoCounts(n - 1);
    }
  }

  lemma {:induction false} PicksInRange(weights: seq<int>, p: nat)
    requires weights != []
    ensures forall k :: 0 <= k < |Picks(weights, p)| ==> Picks(weights, p)[k] < |weights|
  {
    if p > 0 {
      PicksInRange(weights, p - 1);
      PassInRange(weights, LevelAt(weights, p - 1), |weights|);
    }
  }

  lemma {:induction false} PassInRange(weights: seq<int>, level: int, n: nat)
    requires n <= |weights|
    ensures forall k :: 0 <= k < |PassPicks(weights, level, n)| ==> PassPicks(weights, level, n)[k] < n
  {
    if n > 0 {
      PassInRange(weights, level, n - 1);
    }
  }

  /** A cycle is as long as the shares together. */
  lemma CycleLength(weights: seq<int>)
    requires weights != []
    ensures |Cycle(weights)| == SharesUpTo(weights, |weights|) > 0
  {
    PicksInRange(weights, Period(weights));
    CountsAreLength(Cycle(weights), |weights|);
    SharesAreCounts(weights, |weights|);
    var top :| 0 <= top < |weights| && weights[top] == MaxWeight(weights);
    ShareCounted(weights, |weights|, top);
  }

  lemma {:induction false} SharesAreCounts(weights: seq<int>, n: nat)
    requires n <= |weights|
    ensures CountsUpTo(if weights == [] then [] else Cycle(weights), n) == SharesUpTo(weights, n)
  {
    if n > 0 {
      SharesAreCounts(weights, n - 1);
      CycleIsFair(weights, n - 1);
    }
  }

  lemma {:induction false} ShareCounted(weights: seq<int>, n: nat, i: nat)
    requires i < n <= |weights|
    ensures SharesUpTo(weights, n) >= Share(weights, i)
  {
    if i < n - 1 {
      ShareCounted(weights, n - 1, i);
    }
  }

  /** A sequence `b` times over. */
  function Repeated(cycle: seq<nat>, b: nat): seq<nat> {
    if b == 0 then [] else cycle + Repeated(cycle, b - 1)
  }

  function Passes(weights: seq<int>, b: nat): nat
    requires weights != []
  {
    if b == 0 then 0 else Period(weights) + Passes(weights, b - 1)
  }

  lemma {:induction false} Cycles(weights: seq<int>, b: nat)
    requires weights != []
    ensures Picks(weights, Passes(weights, b)) == Repeated(Cycle(weights), b)
  {
    if b > 0 {
      PicksRepeat(weights, Passes(weights, b - 1));
      Cycles(weights, b - 1);
    }
  }

  lemma {:induction false} RepeatedAt(cycle: seq<nat>, b: nat)
    ensures |Repeated(cycle, b)| == b * |cycle|
    ensures Repeated(cycle, b + 1) == Repeated(cycle, b) + cycle
  {
    if b > 0 {
      RepeatedAt(cycle, b - 1);
      assert b * |cycle| == (b - 1) * |cycle| + |cycle|;
    }
  }

  lemma {:induction false} PicksGrow(weights: seq<int>, p: nat, q: nat)
    requires weights != [] && p <= q
    ensures Picks(weights, p) <= Picks(weights, q)
    decreases q - p
  {
    if p < q {
      PicksGrow(weights, p, q - 1);
    }
  }

  lemma {:induction false} PassGrows(weights: seq<int>, level: int, m: nat, n: nat)
    requires m <= n <= |weights|
    ensures PassPicks(weights, level, m) <= PassPicks(weights, level, n)
    decreases n - m
  {
    if m < n {
      PassGrows(weights, level, m, n - 1);
    }
  }

  /** All that is ever served is a prefix of one endless list of picks. */
  lemma ServedIsPrefix(weights: seq<int>, p: nat, n: nat, q: nat)
    requires weights != [] && n <= |weights|
    ensures
      if q <= p then Picks(weights, q) <= PicksUpTo(weights, p, n)
      else PicksUpTo(weights, p, n) <= Picks(weights, q)
  {
    if q <= p {
      PicksGrow(weights, q, p);
    } else {
      PassGrows(weights, LevelAt(weights, p), n, |weights|);
      PicksGrow(weights, p + 1, q);
    }
  }

  /**
    The calls numbered from b * S on, where S is the length of a cycle, return one whole cycle:
    every consecutive block of S calls from the start serves each server exactly as often as it is due.
   */
  lemma ExactlyFair(weights: seq<int>, p: nat, n: nat, b: nat, i: nat)
    requires n <= |weights| && i < |weights|
    requires (b + 1) * SharesUpTo(weights, |weights|) <= |PicksUpTo(weights, p, n)|
    ensures var length := SharesUpTo(weights, |weights|);
      && 0 <= b * length <= (b + 1) * length == b * length + length
      && CountOf(PicksUpTo(weights, p, n)[b * length..(b + 1) * length], i) == Share(weights, i)
  {
    hide PicksUpTo, Picks, Cycle, Share, SharesUpTo, Passes, Repeated, CountOf;
    var served, cycle := PicksUpTo(weights, p, n), Cycle(weights);
    CycleLength(weights);
    Cycles(weights, b + 1);
    RepeatedAt(cycle, b);
    RepeatedAt(cycle, b + 1);
    OneMore(b, |cycle|);
    ServedIsPrefix(weights, p, n, Passes(weights, b + 1));
    BlockOfPrefix(served, Repeated(cycle, b), cycle);
    CycleIsFair(weights, i);
  }

  lemma OneMore(b: nat, length: nat)
    ensures 0 <= b * length <= (b + 1) * length == b * length + length
  {
  }

  lemma BlockOfPrefix(served: seq<nat>, before: seq<nat>, cycle: seq<nat>)
    requires before + cycle <= served || served <= before + cycle
    requires |before + cycle| <= |served|
    ensures served[|before|..|before| + |cycle|] == cycle
  {
    assert served[..|before + cycle|] == before + cycle;
  }
}
