/**
  Adjacency-list graphs as the trainer-pairing code uses them: a dictionary
  from trainer index to the list of trainers it would wrestle forever with.
 */
module Graphs {
  import opened Common

  type Graph = map<nat, seq<nat>>

  /** Every listed neighbour is a node, and lists the node back. */
  ghost predicate Symmetric(g: Graph)
  {
    forall k | k in g :: forall x | x in g[k] :: x in g && k in g[x]
  }

  /** No node lists itself. */
  ghost predicate Loopless(g: Graph)
  {
    forall k | k in g :: k !in g[k]
  }

  /** No adjacency list repeats a neighbour. */
  ghost predicate DistinctLists(g: Graph)
  {
    forall k | k in g :: NoDuplicates(g[k])
  }

  ghost predicate SimpleGraph(g: Graph)
  {
    Symmetric(g) && Loopless(g) && DistinctLists(g)
  }

  /** The nodes are exactly 0, 1, ..., |g| - 1, as `range(len(banana_list))` makes them. */
  ghost predicate IndexKeys(g: Graph)
  {
    forall k: nat :: k in g <==> k < |g|
  }

  /** The elements of `s` that lie in `keep`, in their original order. */
  function Filter(s: seq<nat>, keep: set<nat>): (r: seq<nat>)
    ensures forall x :: x in r <==> x in s && x in keep
    ensures |r| <= |s|
  {
    if s == [] then [] else (if s[0] in keep then [s[0]] else []) + Filter(s[1..], keep)
  }

  /** Every occurrence of `x` dropped from `s`. */
  function Without(s: seq<nat>, x: nat): (r: seq<nat>)
    ensures forall y :: y in r <==> y in s && y != x
  {
    if s == [] then [] else (if s[0] != x then [s[0]] else []) + Without(s[1..], x)
  }

  /**
    The inner loops of the pairing step: find the first index holding `x`,
    delete it and stop.  Only that one occurrence goes.
   */
  function RemoveFirst(s: seq<nat>, x: nat): (r: seq<nat>)
  {
    if s == [] then []
    else if s[0] == x then s[1..]
    else [s[0]] + RemoveFirst(s[1..], x)
  }

  /** Without a copy of `x` the list is unchanged. */
  lemma {:induction false} RemoveFirstAbsent(s: seq<nat>, x: nat)
    requires x !in s
    ensures RemoveFirst(s, x) == s
  {
    if s != [] {
      RemoveFirstAbsent(s[1..], x);
      assert s == [s[0]] + s[1..];
    }
  }

  /** Exactly one copy of `x` goes: the list loses one element and one occurrence of `x`. */
  lemma {:induction false} RemoveFirstRemovesOne(s: seq<nat>, x: nat)
    requires x in s
    ensures |RemoveFirst(s, x)| == |s| - 1
    ensures multiset(RemoveFirst(s, x)) == multiset(s) - multiset{x}
  {
    if s[0] == x {
      assert s == [x] + s[1..];
    } else {
      var t := s[1..];
      assert s == [s[0]] + t;
      assert x in t;
      RemoveFirstRemovesOne(t, x);
      assert multiset(RemoveFirst(s, x)) == multiset{s[0]} + multiset(RemoveFirst(t, x));
    }
  }

  /** On a list without repeats, removing the first occurrence removes them all. */
  lemma {:induction false} RemoveFirstOfDistinct(s: seq<nat>, x: nat)
    requires NoDuplicates(s)
    ensures RemoveFirst(s, x) == Without(s, x)
  {
    if s != [] {
      assert NoDuplicates(s[1..]);
      RemoveFirstOfDistinct(s[1..], x);
      if s[0] == x {
        assert x !in s[1..];
        WithoutAbsent(s[1..], x);
      }
    }
  }

  lemma {:induction false} WithoutAbsent(s: seq<nat>, x: nat)
    requires x !in s
    ensures Without(s, x) == s
  {
    if s != [] {
      WithoutAbsent(s[1..], x);
      assert s == [s[0]] + s[1..];
    }
  }

  /** Dropping `x` after filtering is filtering with `x` taken out of the kept set. */
  lemma {:induction false} WithoutOfFilter(s: seq<nat>, keep: set<nat>, x: nat)
    ensures Without(Filter(s, keep), x) == Filter(s, keep - {x})
  {
    if s != [] {
      WithoutOfFilter(s[1..], keep, x);
      var head := if s[0] in keep then [s[0]] else [];
      assert Filter(s, keep) == head + Filter(s[1..], keep);
      WithoutOfConcat(head, Filter(s[1..], keep), x);
    }
  }

  lemma {:induction false} WithoutOfConcat(a: seq<nat>, b: seq<nat>, x: nat)
    ensures Without(a + b, x) == Without(a, x) + Without(b, x)
  {
    if a != [] {
      WithoutOfConcat(a[1..], b, x);
      assert (a + b)[1..] == a[1..] + b;
    } else {
      assert a + b == b;
    }
  }

  /** Taking `x` out of the kept set changes nothing when `x` is not in the list. */
  lemma {:induction false} FilterIgnoresAbsent(s: seq<nat>, keep: set<nat>, x: nat)
    requires x !in s
    ensures Filter(s, keep - {x}) == Filter(s, keep)
  {
    if s != [] {
      FilterIgnoresAbsent(s[1..], keep, x);
    }
  }

  /** Filtering a list without repeats gives a list without repeats. */
  lemma {:induction false} FilterDistinct(s: seq<nat>, keep: set<nat>)
    requires NoDuplicates(s)
    ensures NoDuplicates(Filter(s, keep))
  {
    if s != [] {
      assert NoDuplicates(s[1..]);
      FilterDistinct(s[1..], keep);
      assert s[0] !in s[1..];
    }
  }

  /** Keeping a superset of the list's elements keeps the whole list. */
  lemma {:induction false} FilterKeepsAll(s: seq<nat>, keep: set<nat>)
    requires forall x | x in s :: x in keep
    ensures Filter(s, keep) == s
  {
    if s != [] {
      FilterKeepsAll(s[1..], keep);
      assert s == [s[0]] + s[1..];
    }
  }

  /** A list without repeats drawn from `within` is no longer than `within` is large. */
  lemma {:induction false} DistinctBound(s: seq<nat>, within: set<nat>)
    requires NoDuplicates(s)
    requires forall x | x in s :: x in within
    ensures |s| <= |within|
  {
    if s != [] {
      var last := s[|s| - 1];
      var front := s[..|s| - 1];
      assert NoDuplicates(front);
      forall x | x in front
        ensures x in within - {last}
      {
        var i :| 0 <= i < |front| && front[i] == x;
        assert s[i] == x;
      }
      DistinctBound(front, within - {last});
    }
  }

  /** Two different nodes make a graph of at least two nodes. */
  lemma TwoNodes(g: Graph, u: nat, v: nat)
    requires u in g && v in g && u != v
    ensures |g| >= 2
  {
    DistinctBound([u, v], g.Keys);
  }
}
