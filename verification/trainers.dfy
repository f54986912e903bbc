/**
  Level 4, "Distract the Trainers", the entry point: check the input limits,
  build the tournament graph, pair the trainers off greedily and report how
  many are left to watch the workers.
 */
module Trainers {
  import opened Common
  import opened Compatibility
  import opened Graphs
  import opened TournamentGraph
  import opened GreedyMatcher

  /** At most this many trainers. */
  const MaxTrainers: int := 100

  /** No trainer may start with more than 2^30 - 1 bananas. */
  const MaxBananas: int := 1073741823

  /** Some trainer holds more bananas than allowed. */
  predicate TooManyBananas(bananas: seq<nat>)
  {
    exists i | 0 <= i < |bananas| :: bananas[i] > MaxBananas
  }

  /**
    The shortcut the source takes before the banana limit is checked: two
    trainers with the same count are both left over.
   */
  predicate EqualPair(bananas: seq<nat>)
  {
    |bananas| == 2 && bananas[0] == bananas[1]
  }

  /** The source's loop over the list: the first count over the limit aborts. */
  method ExceedsLimit(bananas: seq<nat>) returns (r: bool)
    ensures r <==> TooManyBananas(bananas)
  {
    var k := 0;
    while k < |bananas|
      invariant 0 <= k <= |bananas|
      invariant forall i | 0 <= i < k :: bananas[i] <= MaxBananas
    {
      if bananas[k] > MaxBananas {
        return true;
      }
      k := k + 1;
    }
    return false;
  }

  /**
    The source's `solution`: `None` for a count of trainers outside 1..100,
    or (unless the two-equal shortcut applies) for a banana count over
    2^30 - 1; otherwise the number of trainers left unpaired by a maximal
    set of endless matches.
   */
  method Solution(bananas: seq<nat>) returns (r: Option<int>)
    requires Positive(bananas)
    ensures r.None? <==> |bananas| < 1 || |bananas| > MaxTrainers || (!EqualPair(bananas) && TooManyBananas(bananas))
    ensures EqualPair(bananas) ==> r == Some(2)
    ensures r.Some? ==> 0 <= r.value <= |bananas|
    ensures r.Some? ==>
              exists pairs: seq<(nat, nat)> ::
                IsMatching(Tournament(bananas), pairs)
                && Maximal(Tournament(bananas), pairs)
                && r.value == |bananas| - 2 * |pairs|
    ensures r.Some? ==> r.value == |bananas| - 2 * |GreedyPairs(Tournament(bananas), Tournament(bananas).Keys)|
  {
    var numTrainers := |bananas|;
    if numTrainers < 1 || numTrainers > MaxTrainers {
      return None;
    }
    if numTrainers == 2 && bananas[0] == bananas[1] {
      EqualPairUnmatched(bananas);
      EdgelessNoPairs(Tournament(bananas), Tournament(bananas).Keys);
      return Some(numTrainers);
    }
    var over := ExceedsLimit(bananas);
    if over {
      return None;
    }
    var graph := CreateTournament(bananas);
    TournamentSimple(bananas);
    var distracted, pairs := DistractTheTrainers(graph);
    r := Some(numTrainers - distracted);
  }

  /**
    The shortcut agrees with the general path: two trainers with equal counts
    share no edge, so the only maximal matching is empty and both are left.
   */
  lemma EqualPairUnmatched(bananas: seq<nat>)
    requires Positive(bananas) && EqualPair(bananas)
    ensures IsMatching(Tournament(bananas), []) && Maximal(Tournament(bananas), [])
    ensures forall pairs: seq<(nat, nat)> :: IsMatching(Tournament(bananas), pairs) ==> pairs == []
    ensures forall k | k in Tournament(bananas) :: Tournament(bananas)[k] == []
  {
    var g := Tournament(bananas);
    EqualCountsStop(bananas[0]);
    forall pairs: seq<(nat, nat)> | IsMatching(g, pairs)
      ensures pairs == []
    {
      if pairs != [] {
        var u, v := pairs[0].0, pairs[0].1;
        assert v in g[u];
        TournamentEdges(bananas, u, v);
      }
    }
    forall k | k in g
      ensures g[k] == []
    {
      if g[k] != [] {
        TournamentEdges(bananas, k, g[k][0]);
      }
    }
  }

  /** A single trainer is always left on their own. */
  lemma SingleTrainer(bananas: seq<nat>)
    requires Positive(bananas) && |bananas| == 1
    ensures forall pairs: seq<(nat, nat)> :: IsMatching(Tournament(bananas), pairs) ==> pairs == []
  {
    var g := Tournament(bananas);
    forall pairs: seq<(nat, nat)> | IsMatching(g, pairs)
      ensures pairs == []
    {
      if pairs != [] {
        var u, v := pairs[0].0, pairs[0].1;
        assert v in g[u];
        TournamentEdges(bananas, u, v);
      }
    }
  }
}
