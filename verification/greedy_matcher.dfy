/**
  Level 4, "Distract the Trainers", part 3: the greedy pairing.  Repeatedly
  take a trainer of fewest remaining partners; drop it if it has none,
  otherwise pair it with its first neighbour of fewest partners and remove
  both from the graph.
 */
module GreedyMatcher {
  import opened Common
  import opened Graphs

  /** Both trainers of every pair, in the order the pairs were made. */
  function Ends(pairs: seq<(nat, nat)>): (r: seq<nat>)
    ensures |r| == 2 * |pairs|
  {
    if pairs == [] then []
    else Ends(pairs[..|pairs| - 1]) + [pairs[|pairs| - 1].0, pairs[|pairs| - 1].1]
  }

  /** Every pair is an edge of `g`, and no trainer is in two pairs (or paired with itself). */
  ghost predicate IsMatching(g: Graph, pairs: seq<(nat, nat)>)
  {
    (forall i | 0 <= i < |pairs| :: pairs[i].0 in g && pairs[i].1 in g[pairs[i].0])
    && NoDuplicates(Ends(pairs))
  }

  /** No edge of `g` joins two unpaired trainers: the matching cannot be extended. */
  ghost predicate Maximal(g: Graph, pairs: seq<(nat, nat)>)
  {
    forall u, v | u in g && v in g[u] :: u in Ends(pairs) || v in Ends(pairs)
  }

  /**
    The working graph is what is left of the original: the nodes still present,
    each with its original list restricted to the nodes still present.
   */
  ghost predicate Induced(graph: Graph, g: Graph)
  {
    g.Keys <= graph.Keys && forall k | k in g :: g[k] == Filter(graph[k], g.Keys)
  }

  /**
    The pairs made so far form a matching of the original graph, use only
    removed trainers, and a trainer removed without a partner has only
    paired neighbours.
   */
  ghost predicate MatchingSoFar(graph: Graph, live: set<nat>, pairs: seq<(nat, nat)>)
  {
    IsMatching(graph, pairs)
    && (forall x | x in Ends(pairs) :: x in graph && x !in live)
    && (forall u | u in graph && u !in live && u !in Ends(pairs) :: forall v | v in graph[u] :: v in Ends(pairs))
  }

  /** How many neighbours `n` has among the trainers in `live`. */
  ghost function Degree(graph: Graph, live: set<nat>, n: nat): (r: nat)
    requires n in graph
  {
    |Filter(graph[n], live)|
  }

  /**
    `p` is in `among`, has the fewest neighbours left of all of `among`,
    and every lower key of `among` has strictly more.
   */
  ghost predicate LowestFewest(graph: Graph, live: set<nat>, among: set<nat>, p: nat)
    requires live <= graph.Keys && among <= live
  {
    p in among
    && (forall k {:trigger Degree(graph, live, k)} | k in among :: Degree(graph, live, p) <= Degree(graph, live, k))
    && (forall k {:trigger Degree(graph, live, k)} | k in among && k < p :: Degree(graph, live, p) < Degree(graph, live, k))
  }

  lemma {:induction false} LowestFewestExists(graph: Graph, live: set<nat>, among: set<nat>)
    requires live <= graph.Keys && among <= live && among != {}
    ensures exists p :: LowestFewest(graph, live, among, p)
    decreases |among|
  {
    var x :| x in among;
    if among == {x} {
      assert LowestFewest(graph, live, among, x);
    } else {
      var rest := among - {x};
      assert rest < among;
      LowestFewestExists(graph, live, rest);
      var p :| LowestFewest(graph, live, rest, p);
      if Degree(graph, live, x) < Degree(graph, live, p) || (Degree(graph, live, x) == Degree(graph, live, p) && x < p) {
        assert LowestFewest(graph, live, among, x);
      } else {
        assert LowestFewest(graph, live, among, p);
      }
    }
  }

  /** The reference pivot: the lowest key among the trainers in `live` with fewest neighbours left. */
  ghost function Pivot(graph: Graph, live: set<nat>): (p: nat)
    requires live <= graph.Keys && live != {}
    ensures LowestFewest(graph, live, live, p)
  {
    LowestFewestExists(graph, live, live);
    var p :| LowestFewest(graph, live, live, p); p
  }

  /** Only one key is the lowest of those with fewest neighbours left. */
  lemma PivotUnique(graph: Graph, live: set<nat>, p: nat)
    requires live <= graph.Keys && live != {} && LowestFewest(graph, live, live, p)
    ensures p == Pivot(graph, live)
  {
    var p' := Pivot(graph, live);
    assert Degree(graph, live, p) <= Degree(graph, live, p') && Degree(graph, live, p') <= Degree(graph, live, p);
  }

  /** The position of the first entry of `l` with fewest neighbours left. */
  ghost function FewestAt(graph: Graph, live: set<nat>, l: seq<nat>): (j: nat)
    requires l != [] && forall x | x in l :: x in graph
    ensures j < |l|
    ensures forall x {:trigger Degree(graph, live, x)} | x in l :: Degree(graph, live, l[j]) <= Degree(graph, live, x)
    ensures forall i | 0 <= i < j :: Degree(graph, live, l[j]) < Degree(graph, live, l[i])
    decreases |l|
  {
    if |l| == 1 then 0
    else
      var j := FewestAt(graph, live, l[1..]);
      assert l[1..][j] == l[1 + j];
      assert forall x | x in l :: x == l[0] || x in l[1..];
      if Degree(graph, live, l[0]) <= Degree(graph, live, l[1 + j]) then 0 else 1 + j
  }

  /**
    The reference partner of `p`: the first of its neighbours left in `live`
    with fewest neighbours left, or `None` when it has no neighbour left.
   */
  ghost function Partner(graph: Graph, live: set<nat>, p: nat): (r: Option<nat>)
    requires live <= graph.Keys && p in graph
    ensures r.None? <==> Filter(graph[p], live) == []
    ensures r.Some? ==> r.value in live && r.value in graph[p]
  {
    var l := Filter(graph[p], live);
    if l == [] then None else Some(l[FewestAt(graph, live, l)])
  }

  /** The trainers left after one step of the reference. */
  ghost function NextLive(graph: Graph, live: set<nat>): (r: set<nat>)
    requires live <= graph.Keys && live != {}
    ensures r < live
  {
    var p := Pivot(graph, live);
    match Partner(graph, live, p)
    case None => live - {p}
    case Some(q) => live - {p, q}
  }

  /** The pair one step of the reference makes: none when the pivot has no neighbour left. */
  ghost function StepPairs(graph: Graph, live: set<nat>): (r: seq<(nat, nat)>)
    requires live <= graph.Keys && live != {}
    ensures |r| <= 1
  {
    var p := Pivot(graph, live);
    match Partner(graph, live, p)
    case None => []
    case Some(q) => [(p, q)]
  }

  /**
    The greedy heuristic as a recursive definition, independent of the
    destructive loop: while two or more trainers are left, take the pivot;
    drop it alone if it has no neighbour left, otherwise pair it with its
    partner and drop both.
   */
  ghost function GreedyPairs(graph: Graph, live: set<nat>): (r: seq<(nat, nat)>)
    requires live <= graph.Keys
    decreases |live|
  {
    if |live| <= 1 then []
    else StepPairs(graph, live) + GreedyPairs(graph, NextLive(graph, live))
  }

  /**
    The source's `min(graph, key=graph_comparator(graph))`: the keys are
    visited in ascending order and the first one of fewest neighbours wins.
   */
  method MinDegreeNode(g: Graph, bound: nat) returns (p: nat)
    requires |g| > 0
    requires forall k | k in g :: k < bound
    ensures p in g
    ensures forall k | k in g :: |g[p]| <= |g[k]|
    ensures forall k | k in g && k < p :: |g[p]| < |g[k]|
  {
    var found := false;
    var best := 0;
    var k := 0;
    while k < bound
      invariant 0 <= k <= bound
      invariant found ==> best in g && best < k
      invariant !found ==> forall x | x in g :: x >= k
      invariant found ==> forall x | x in g && x < k :: |g[best]| <= |g[x]|
      invariant found ==> forall x | x in g && x < best :: |g[best]| < |g[x]|
    {
      if k in g && (!found || |g[k]| < |g[best]|) {
        best := k;
        found := true;
      }
      k := k + 1;
    }
    if !found {
      assert false;
    }
    p := best;
  }

  /**
    The partner scan: walk the pivot's list and remember the first neighbour
    of strictly fewest neighbours, starting from one more than the first
    neighbour's count so that the first neighbour is always taken.  The
    source deletes the pivot from each neighbour's list in the same loop;
    that deletion never touches a list the scan has yet to measure, so it is
    the separate `DetachNode` pass here.
   */
  method ChoosePartner(g: Graph, p: nat) returns (q: nat)
    requires p in g && |g[p]| >= 1
    requires forall x | x in g[p] :: x in g
    ensures q in g[p]
    ensures forall x | x in g[p] :: |g[q]| <= |g[x]|
    ensures exists j | 0 <= j < |g[p]| :: g[p][j] == q && forall i | 0 <= i < j :: |g[q]| < |g[g[p][i]]|
  {
    var nbrs := g[p];
    var bestDegree := |g[nbrs[0]]| + 1;
    q := 1;
    ghost var at := 0;
    var i := 0;
    while i < |nbrs|
      invariant 0 <= i <= |nbrs|
      invariant i == 0 ==> bestDegree == |g[nbrs[0]]| + 1
      invariant i > 0 ==> 0 <= at < i && nbrs[at] == q && bestDegree == |g[q]|
      invariant i > 0 ==> forall k | 0 <= k < i :: |g[q]| <= |g[nbrs[k]]|
      invariant i > 0 ==> forall k | 0 <= k < at :: |g[q]| < |g[nbrs[k]]|
    {
      var node := nbrs[i];
      if |g[node]| < bestDegree {
        bestDegree := |g[node]|;
        q := node;
        at := i;
      }
      i := i + 1;
    }
  }

  /** Delete `q` from the list of each of its neighbours (the first occurrence only). */
  method DetachNode(h: Graph, q: nat) returns (h2: Graph)
    requires q in h && q !in h[q] && NoDuplicates(h[q])
    requires forall x | x in h[q] :: x in h
    ensures h2.Keys == h.Keys
    ensures forall n | n in h :: h2[n] == if n in h[q] then RemoveFirst(h[n], q) else h[n]
  {
    var nbrs := h[q];
    h2 := h;
    var i := 0;
    while i < |nbrs|
      invariant 0 <= i <= |nbrs|
      invariant h2.Keys == h.Keys
      invariant forall n | n in h :: h2[n] == if n in nbrs[..i] then RemoveFirst(h[n], q) else h[n]
    {
      var node := nbrs[i];
      assert node !in nbrs[..i];
      h2 := h2[node := RemoveFirst(h2[node], q)];
      assert nbrs[..i + 1] == nbrs[..i] + [node];
      i := i + 1;
    }
    assert nbrs[..i] == nbrs;
  }

  /**
    The source's `distract_the_trainers`.  Besides the count it returns the
    pairs it made, so that the contract can say which trainers were paired:
    the pairs form a maximal matching of the input graph and the count is
    twice their number.
   */
  method DistractTheTrainers(graph: Graph) returns (distracted: nat, pairs: seq<(nat, nat)>)
    requires SimpleGraph(graph) && IndexKeys(graph)
    ensures distracted == 2 * |pairs|
    ensures IsMatching(graph, pairs)
    ensures Maximal(graph, pairs)
    ensures distracted <= |graph|
    ensures pairs == GreedyPairs(graph, graph.Keys)
  {
    var g := graph;
    distracted := 0;
    pairs := [];
    var remaining := |g|;
    StartInduced(graph);
    while |g| > 1 && remaining >= 1
      invariant Induced(graph, g)
      invariant MatchingSoFar(graph, g.Keys, pairs)
      invariant distracted == 2 * |pairs|
      invariant |g| > 1 ==> remaining >= 1
      invariant pairs + GreedyPairs(graph, g.Keys) == GreedyPairs(graph, graph.Keys)
      decreases |g|
    {
      ghost var (live, before) := (g.Keys, pairs);
      g, distracted, pairs := Round(graph, g, distracted, pairs);
      assert pairs + GreedyPairs(graph, g.Keys) == GreedyPairs(graph, graph.Keys) by {
        GreedyAdvance(graph, live, before, pairs);
      }
      if |g| > 1 {
        remaining := |g|;
      }
    }
    assert pairs == GreedyPairs(graph, graph.Keys) by { GreedyDone(graph, g.Keys, pairs); }
    MaximalAtEnd(graph, g, pairs);
    DistinctBound(Ends(pairs), graph.Keys);
  }

  /** At the start the working graph is the whole input. */
  lemma StartInduced(graph: Graph)
    requires Symmetric(graph)
    ensures Induced(graph, graph)
  {
    forall k | k in graph
      ensures Filter(graph[k], graph.Keys) == graph[k]
    {
      FilterKeepsAll(graph[k], graph.Keys);
    }
  }

  /**
    One pass of the loop body: drop a trainer of fewest partners if it has
    none, otherwise pair it off and remove both trainers.
   */
  method Round(graph: Graph, g: Graph, distracted: nat, pairs: seq<(nat, nat)>)
    returns (g': Graph, distracted': nat, pairs': seq<(nat, nat)>)
    requires SimpleGraph(graph) && IndexKeys(graph) && |g| > 0
    requires Induced(graph, g) && MatchingSoFar(graph, g.Keys, pairs)
    requires distracted == 2 * |pairs|
    ensures Induced(graph, g') && MatchingSoFar(graph, g'.Keys, pairs')
    ensures distracted' == 2 * |pairs'|
    ensures |g'| < |g|
    ensures g'.Keys == NextLive(graph, g.Keys) && pairs' == pairs + StepPairs(graph, g.Keys)
  {
    var p := MinDegreeNode(g, |graph|);
    assert p == Pivot(graph, g.Keys) by { MinDegreeIsPivot(graph, g, p); }
    if |g[p]| < 1 {
      g', pairs' := DropIsolated(graph, g, pairs, p);
      distracted' := distracted;
    } else {
      g', pairs' := PairPivot(graph, g, pairs, p);
      distracted' := distracted + 2;
    }
  }

  /** The branch for a pivot with no neighbour left: remove it alone. */
  method DropIsolated(graph: Graph, g: Graph, pairs: seq<(nat, nat)>, p: nat)
    returns (g': Graph, pairs': seq<(nat, nat)>)
    requires SimpleGraph(graph) && Induced(graph, g) && MatchingSoFar(graph, g.Keys, pairs)
    requires p in g && g[p] == [] && p == Pivot(graph, g.Keys)
    ensures Induced(graph, g') && MatchingSoFar(graph, g'.Keys, pairs') && |g'| < |g| && pairs' == pairs
    ensures g'.Keys == NextLive(graph, g.Keys) && pairs' == pairs + StepPairs(graph, g.Keys)
  {
    g', pairs' := g - {p}, pairs;
    assert g'.Keys == g.Keys - {p};
    IsolatedStep(graph, g, pairs, p);
    IsolatedReference(graph, g, p);
    assert pairs + [] == pairs;
  }

  /** The branch for a pivot with neighbours left: pair it with its partner and remove both. */
  method PairPivot(graph: Graph, g: Graph, pairs: seq<(nat, nat)>, p: nat)
    returns (g': Graph, pairs': seq<(nat, nat)>)
    requires SimpleGraph(graph) && Induced(graph, g) && MatchingSoFar(graph, g.Keys, pairs)
    requires p in g && |g[p]| >= 1 && p == Pivot(graph, g.Keys)
    ensures Induced(graph, g') && MatchingSoFar(graph, g'.Keys, pairs') && |g'| < |g| && |pairs'| == |pairs| + 1
    ensures g'.Keys == NextLive(graph, g.Keys) && pairs' == pairs + StepPairs(graph, g.Keys)
  {
    var q;
    g', q := PairOff(graph, g, pairs, p);
    pairs' := pairs + [(p, q)];
    PairReference(graph, g.Keys, p, q);
  }

  /**
    The pairing branch: choose the partner, delete the pivot and then the
    partner from their neighbours' lists, and remove both trainers.
   */
  method PairOff(graph: Graph, g: Graph, pairs: seq<(nat, nat)>, p: nat) returns (g': Graph, q: nat)
    requires SimpleGraph(graph) && Induced(graph, g) && MatchingSoFar(graph, g.Keys, pairs)
    requires p in g && |g[p]| >= 1
    ensures q in g[p] && Partner(graph, g.Keys, p) == Some(q)
    ensures Induced(graph, g') && MatchingSoFar(graph, g'.Keys, pairs + [(p, q)])
    ensures g'.Keys == g.Keys - {p, q} && |g'| < |g|
  {
    InducedIsSimple(graph, g);
    q := ChoosePartner(g, p);
    ChosenIsPartner(graph, g, p, q);
    var h := DetachNode(g, p);
    AfterChoose(graph, g, p, h);
    var h2 := DetachNode(h, q);
    PairInduced(graph, g, p, q, h, h2);
    PairMatching(graph, g.Keys, pairs, p, q);
    RemovePairShrinks(g, h2, p, q);
    g' := h2 - {p, q};
  }

  /** One step of the reference extends the pairs made so far, and the rest follows from the trainers left. */
  lemma GreedyAdvance(graph: Graph, live: set<nat>, before: seq<(nat, nat)>, after: seq<(nat, nat)>)
    requires live <= graph.Keys && |live| > 1
    requires after == before + StepPairs(graph, live)
    ensures after + GreedyPairs(graph, NextLive(graph, live)) == before + GreedyPairs(graph, live)
  {
    var step, rest := StepPairs(graph, live), GreedyPairs(graph, NextLive(graph, live));
    assert GreedyPairs(graph, live) == step + rest by { GreedyUnfold(graph, live); }
    ConcatAssociative(before, step, rest);
  }

  /** A graph without edges gets no pairs: every pivot is dropped alone. */
  lemma {:induction false} EdgelessNoPairs(graph: Graph, live: set<nat>)
    requires live <= graph.Keys && forall k | k in graph :: graph[k] == []
    ensures GreedyPairs(graph, live) == []
    decreases |live|
  {
    if |live| > 1 {
      assert Partner(graph, live, Pivot(graph, live)) == None;
      EdgelessNoPairs(graph, NextLive(graph, live));
    }
  }

  /** With at most one trainer left, the reference makes no more pairs. */
  lemma GreedyDone(graph: Graph, live: set<nat>, pairs: seq<(nat, nat)>)
    requires live <= graph.Keys && |live| <= 1
    ensures pairs + GreedyPairs(graph, live) == pairs
  {
    assert GreedyPairs(graph, live) == [];
  }

  /** With two or more trainers left, the reference takes one step and recurses. */
  lemma GreedyUnfold(graph: Graph, live: set<nat>)
    requires live <= graph.Keys && |live| > 1
    ensures GreedyPairs(graph, live) == StepPairs(graph, live) + GreedyPairs(graph, NextLive(graph, live))
  {
  }

  lemma ConcatAssociative(a: seq<(nat, nat)>, b: seq<(nat, nat)>, c: seq<(nat, nat)>)
    ensures (a + b) + c == a + (b + c)
  {
  }

  /** When the pivot has no neighbour left, the reference step drops it alone. */
  lemma IsolatedReference(graph: Graph, g: Graph, p: nat)
    requires Induced(graph, g) && p in g && g[p] == [] && p == Pivot(graph, g.Keys)
    ensures NextLive(graph, g.Keys) == g.Keys - {p} && StepPairs(graph, g.Keys) == []
  {
    assert Partner(graph, g.Keys, p) == None;
  }

  /** When the pivot is paired with its partner, the reference step makes that pair and drops both. */
  lemma PairReference(graph: Graph, live: set<nat>, p: nat, q: nat)
    requires live <= graph.Keys && live != {} && p == Pivot(graph, live)
    requires Partner(graph, live, p) == Some(q)
    ensures NextLive(graph, live) == live - {p, q} && StepPairs(graph, live) == [(p, q)]
  {
  }

  /** Over the working graph, a node's list length is its reference degree. */
  lemma InducedDegree(graph: Graph, g: Graph, n: nat)
    requires Induced(graph, g) && n in g
    ensures |g[n]| == Degree(graph, g.Keys, n)
  {
  }

  /** The scan's choice over the working graph is the reference pivot. */
  lemma MinDegreeIsPivot(graph: Graph, g: Graph, p: nat)
    requires Induced(graph, g) && p in g
    requires forall k | k in g :: |g[p]| <= |g[k]|
    requires forall k | k in g && k < p :: |g[p]| < |g[k]|
    ensures p == Pivot(graph, g.Keys)
  {
    forall k | k in g
      ensures Degree(graph, g.Keys, k) == |g[k]|
    {
      InducedDegree(graph, g, k);
    }
    PivotUnique(graph, g.Keys, p);
  }

  /** The partner scan's choice over the working graph is the reference partner. */
  lemma ChosenIsPartner(graph: Graph, g: Graph, p: nat, q: nat)
    requires Induced(graph, g) && p in g && g[p] != [] && q in g
    requires forall x | x in g[p] :: |g[q]| <= |g[x]|
    requires exists j | 0 <= j < |g[p]| :: g[p][j] == q && forall i | 0 <= i < j :: |g[q]| < |g[g[p][i]]|
    ensures Partner(graph, g.Keys, p) == Some(q)
  {
    var l := g[p];
    var j :| 0 <= j < |l| && l[j] == q && forall i | 0 <= i < j :: |g[q]| < |g[l[i]]|;
    forall x | x in l
      ensures x in graph && Degree(graph, g.Keys, x) == |g[x]|
    {
      InducedDegree(graph, g, x);
    }
    assert j == FewestAt(graph, g.Keys, l) by { FewestUnique(graph, g.Keys, l, j); }
  }

  /** Only one position holds the first entry of fewest neighbours left. */
  lemma FewestUnique(graph: Graph, live: set<nat>, l: seq<nat>, j: nat)
    requires l != [] && (forall x | x in l :: x in graph) && j < |l|
    requires forall x | x in l :: Degree(graph, live, l[j]) <= Degree(graph, live, x)
    requires forall i | 0 <= i < j :: Degree(graph, live, l[j]) < Degree(graph, live, l[i])
    ensures j == FewestAt(graph, live, l)
  {
    var k := FewestAt(graph, live, l);
    assert Degree(graph, live, l[j]) <= Degree(graph, live, l[k]) && Degree(graph, live, l[k]) <= Degree(graph, live, l[j]);
  }

  /** What is left of a simple graph is again a simple graph. */
  lemma InducedIsSimple(graph: Graph, g: Graph)
    requires SimpleGraph(graph) && Induced(graph, g)
    ensures SimpleGraph(g)
  {
    forall k | k in g
      ensures NoDuplicates(g[k])
    {
      FilterDistinct(graph[k], g.Keys);
    }
  }

  /** Dropping a trainer with no partner left keeps every invariant. */
  lemma IsolatedStep(graph: Graph, g: Graph, pairs: seq<(nat, nat)>, p: nat)
    requires SimpleGraph(graph) && Induced(graph, g) && MatchingSoFar(graph, g.Keys, pairs)
    requires p in g && g[p] == []
    ensures Induced(graph, g - {p}) && MatchingSoFar(graph, (g - {p}).Keys, pairs)
    ensures |g - {p}| < |g|
  {
    assert (g - {p}).Keys == g.Keys - {p};
    IsolatedInduced(graph, g, p);
    IsolatedMatching(graph, g, pairs, p);
  }

  lemma IsolatedInduced(graph: Graph, g: Graph, p: nat)
    requires Symmetric(graph) && Induced(graph, g) && p in g && g[p] == []
    ensures Induced(graph, g - {p})
  {
    var rest := g - {p};
    assert rest.Keys == g.Keys - {p};
    forall k | k in rest
      ensures rest[k] == Filter(graph[k], rest.Keys)
    {
      FilterIgnoresAbsent(graph[k], g.Keys, p);
    }
  }

  lemma IsolatedMatching(graph: Graph, g: Graph, pairs: seq<(nat, nat)>, p: nat)
    requires Symmetric(graph) && Induced(graph, g) && MatchingSoFar(graph, g.Keys, pairs)
    requires p in g && g[p] == []
    ensures MatchingSoFar(graph, g.Keys - {p}, pairs)
  {
    forall v | v in graph[p]
      ensures v in Ends(pairs)
    {
      assert v !in g[p];
      assert v !in g;
    }
  }

  /** After the first deletion pass, every other list has lost the pivot. */
  lemma AfterChoose(graph: Graph, g: Graph, p: nat, h: Graph)
    requires SimpleGraph(graph) && Induced(graph, g) && p in g
    requires h.Keys == g.Keys
    requires forall n | n in g :: h[n] == if n in g[p] then RemoveFirst(g[n], p) else g[n]
    ensures forall n | n in g && n != p :: h[n] == Filter(graph[n], g.Keys - {p})
    ensures forall n | n in g && n != p :: NoDuplicates(h[n]) && n !in h[n]
  {
    forall n | n in g && n != p
      ensures h[n] == Filter(graph[n], g.Keys - {p})
    {
      if n in g[p] {
        FilterDistinct(graph[n], g.Keys);
        RemoveFirstOfDistinct(g[n], p);
        WithoutOfFilter(graph[n], g.Keys, p);
      } else {
        FilterIgnoresAbsent(graph[n], g.Keys, p);
      }
    }
    forall n | n in g && n != p
      ensures NoDuplicates(h[n]) && n !in h[n]
    {
      FilterDistinct(graph[n], g.Keys - {p});
    }
  }

  /** After the second deletion pass and both removals, the graph is again induced. */
  lemma PairInduced(graph: Graph, g: Graph, p: nat, q: nat, h: Graph, h2: Graph)
    requires SimpleGraph(graph) && Induced(graph, g)
    requires p in g && q in g[p]
    requires h.Keys == g.Keys
    requires forall n | n in g && n != p :: h[n] == Filter(graph[n], g.Keys - {p})
    requires forall n | n in g && n != p :: NoDuplicates(h[n])
    requires h2.Keys == h.Keys
    requires forall n | n in h :: h2[n] == if n in h[q] then RemoveFirst(h[n], q) else h[n]
    ensures Induced(graph, h2 - {p, q})
  {
    var keep := g.Keys - {p};
    var rest := h2 - {p, q};
    assert rest.Keys == keep - {q};
    forall n | n in rest
      ensures rest[n] == Filter(graph[n], keep - {q})
    {
      assert n in g && n != p && n in h;
      DetachedList(graph, keep, h[n], h[q], h2[n], n, q);
    }
  }

  /** One trainer's list after the second deletion pass. */
  lemma DetachedList(graph: Graph, keep: set<nat>, l: seq<nat>, lq: seq<nat>, l2: seq<nat>, n: nat, q: nat)
    requires Symmetric(graph) && n in graph && q in graph && n in keep
    requires l == Filter(graph[n], keep) && NoDuplicates(l)
    requires lq == Filter(graph[q], keep)
    requires l2 == if n in lq then RemoveFirst(l, q) else l
    ensures l2 == Filter(graph[n], keep - {q})
  {
    if n in lq {
      RemoveFirstOfDistinct(l, q);
      WithoutOfFilter(graph[n], keep, q);
    } else {
      FilterIgnoresAbsent(graph[n], keep, q);
    }
  }

  /** Pairing the pivot with a neighbour extends the matching. */
  lemma PairMatching(graph: Graph, live: set<nat>, pairs: seq<(nat, nat)>, p: nat, q: nat)
    requires MatchingSoFar(graph, live, pairs)
    requires p in live && p in graph && q in live && q in graph && q in graph[p] && p != q
    ensures MatchingSoFar(graph, live - {p, q}, pairs + [(p, q)])
  {
    var pairs' := pairs + [(p, q)];
    assert pairs'[..|pairs'| - 1] == pairs;
    assert Ends(pairs') == Ends(pairs) + [p, q];
    AppendTwoDistinct(Ends(pairs), p, q);
    forall i | 0 <= i < |pairs'|
      ensures pairs'[i].0 in graph && pairs'[i].1 in graph[pairs'[i].0]
    {
      if i < |pairs| {
        assert pairs'[i] == pairs[i];
      }
    }
    forall x | x in Ends(pairs')
      ensures x in graph && x !in live - {p, q}
    {
      assert x in Ends(pairs) || x == p || x == q;
    }
  }

  /** Removing the pivot and its partner leaves fewer trainers, exactly the others. */
  lemma RemovePairShrinks(g: Graph, h2: Graph, p: nat, q: nat)
    requires h2.Keys == g.Keys && p in g && q in g
    ensures (h2 - {p, q}).Keys == g.Keys - {p, q}
    ensures |h2 - {p, q}| < |g|
  {
    var rest := h2 - {p, q};
    assert rest.Keys == g.Keys - {p, q};
    assert rest.Keys < g.Keys;
    assert |rest.Keys| < |g.Keys|;
  }

  lemma AppendTwoDistinct(s: seq<nat>, p: nat, q: nat)
    requires NoDuplicates(s) && p !in s && q !in s && p != q
    ensures NoDuplicates(s + [p, q])
  {
    var t := s + [p, q];
    forall i, j | 0 <= i < j < |t|
      ensures t[i] != t[j]
    {
      if j >= |s| && i < |s| {
        assert t[i] in s;
      }
    }
  }

  /** When at most one trainer is left, no edge joins two unpaired trainers. */
  lemma MaximalAtEnd(graph: Graph, g: Graph, pairs: seq<(nat, nat)>)
    requires SimpleGraph(graph) && Induced(graph, g) && MatchingSoFar(graph, g.Keys, pairs)
    requires |g| <= 1
    ensures Maximal(graph, pairs)
  {
    forall u, v | u in graph && v in graph[u]
      ensures u in Ends(pairs) || v in Ends(pairs)
    {
      if u !in Ends(pairs) && v !in Ends(pairs) {
        assert u in graph[v];
        assert u in g && v in g;
        TwoNodes(g, u, v);
        assert false;
      }
    }
  }
}
