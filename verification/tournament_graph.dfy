/**
  Level 4, "Distract the Trainers", part 2: the tournament graph.  Trainer i
  is joined to trainer j when the two would thumb-wrestle forever.
 */
module TournamentGraph {
  import opened Common
  import opened Bits
  import opened Compatibility
  import opened Graphs

  /** Every trainer holds at least one banana. */
  predicate Positive(bananas: seq<nat>)
  {
    forall i | 0 <= i < |bananas| :: bananas[i] >= 1
  }

  /**
    Reference list: the trainers j < m, other than k, that trainer k would
    wrestle forever, in ascending order.
   */
  function NeighboursBelow(bananas: seq<nat>, k: nat, m: nat): (r: seq<nat>)
    requires Positive(bananas) && k < |bananas| && m <= |bananas|
  {
    if m == 0 then []
    else
      var j := m - 1;
      NeighboursBelow(bananas, k, j) + (if j != k && InfiniteLoop(bananas[k], bananas[j]) then [j] else [])
  }

  /** The reference list holds exactly the partners below m. */
  lemma {:induction false} NeighboursBelowMembers(bananas: seq<nat>, k: nat, m: nat)
    requires Positive(bananas) && k < |bananas| && m <= |bananas|
    ensures forall j: nat :: j in NeighboursBelow(bananas, k, m) <==> j < m && j != k && InfiniteLoop(bananas[k], bananas[j])
  {
    if m > 0 {
      NeighboursBelowMembers(bananas, k, m - 1);
      var tail := if m - 1 != k && InfiniteLoop(bananas[k], bananas[m - 1]) then [m - 1] else [];
      assert NeighboursBelow(bananas, k, m) == NeighboursBelow(bananas, k, m - 1) + tail;
      forall j: nat
        ensures j in NeighboursBelow(bananas, k, m) <==> j < m && j != k && InfiniteLoop(bananas[k], bananas[j])
      {
        assert j in NeighboursBelow(bananas, k, m) <==> j in NeighboursBelow(bananas, k, m - 1) || j in tail;
      }
    }
  }

  /** The reference list is in ascending order, so it has no repeats. */
  lemma {:induction false} NeighboursBelowAscending(bananas: seq<nat>, k: nat, m: nat)
    requires Positive(bananas) && k < |bananas| && m <= |bananas|
    ensures StrictlyAscending(NeighboursBelow(bananas, k, m))
    ensures forall i | 0 <= i < |NeighboursBelow(bananas, k, m)| :: NeighboursBelow(bananas, k, m)[i] < m
  {
    if m > 0 {
      NeighboursBelowAscending(bananas, k, m - 1);
    }
  }

  /** The whole graph, one reference list per trainer. */
  function Tournament(bananas: seq<nat>): (r: Graph)
    requires Positive(bananas)
  {
    map k | k in Indices(|bananas|) :: NeighboursBelow(bananas, k, |bananas|)
  }

  /** The trainer indices 0 .. n-1, as `range(n)` lists them. */
  function Indices(n: nat): (r: set<nat>)
    ensures forall k: nat :: k in r <==> k < n
    ensures |r| == n
  {
    if n == 0 then {} else Indices(n - 1) + {n - 1}
  }

  /** Who is joined to whom, in both directions. */
  lemma TournamentEdges(bananas: seq<nat>, k: nat, j: nat)
    requires Positive(bananas) && k < |bananas|
    ensures k in Tournament(bananas)
    ensures j in Tournament(bananas)[k] <==> j < |bananas| && j != k && InfiniteLoop(bananas[k], bananas[j])
  {
    NeighboursBelowMembers(bananas, k, |bananas|);
  }

  /** The tournament is a simple undirected graph on the trainer indices. */
  lemma TournamentSimple(bananas: seq<nat>)
    requires Positive(bananas)
    ensures SimpleGraph(Tournament(bananas)) && IndexKeys(Tournament(bananas))
    ensures |Tournament(bananas)| == |bananas|
  {
    TournamentSymmetric(bananas);
    TournamentDistinct(bananas);
    assert Tournament(bananas).Keys == Indices(|bananas|);
  }

  lemma TournamentSymmetric(bananas: seq<nat>)
    requires Positive(bananas)
    ensures Symmetric(Tournament(bananas)) && Loopless(Tournament(bananas))
  {
    var g := Tournament(bananas);
    forall k, x | k in g && x in g[k]
      ensures x in g && k in g[x]
    {
      TournamentEdges(bananas, k, x);
      InfiniteLoopSymmetric(bananas[k], bananas[x]);
      TournamentEdges(bananas, x, k);
    }
    forall k | k in g
      ensures k !in g[k]
    {
      TournamentEdges(bananas, k, k);
    }
  }

  lemma TournamentDistinct(bananas: seq<nat>)
    requires Positive(bananas)
    ensures DistinctLists(Tournament(bananas))
  {
    var g := Tournament(bananas);
    forall k | k in g
      ensures NoDuplicates(g[k])
    {
      NeighboursBelowAscending(bananas, k, |bananas|);
    }
  }

  /** How far trainer k's list has been filled when the loops stand at (i, j). */
  function Progress(n: nat, k: nat, i: nat, j: nat): (r: nat)
    requires i <= j <= n
    ensures r <= n
  {
    if k < i then n else if k == i then j else if k < j then i + 1 else i
  }

  /** One inner iteration extends row i by j, and row j by i, under the same test. */
  lemma InnerStep(bananas: seq<nat>, i: nat, j: nat)
    requires Positive(bananas) && i <= j < |bananas|
    ensures NeighboursBelow(bananas, i, j + 1)
      == NeighboursBelow(bananas, i, j) + (if i != j && InfiniteLoop(bananas[i], bananas[j]) then [j] else [])
    ensures i != j ==>
              NeighboursBelow(bananas, j, i + 1)
              == NeighboursBelow(bananas, j, i) + (if InfiniteLoop(bananas[i], bananas[j]) then [i] else [])
  {
    if i != j {
      InfiniteLoopSymmetric(bananas[i], bananas[j]);
    }
  }

  /**
    The source's `create_wrestling_tournament`: start every trainer with an
    empty list, then for each pair i <= j with i != j that would wrestle
    forever append j to i's list and i to j's list.
   */
  method CreateTournament(bananas: seq<nat>) returns (g: Graph)
    requires Positive(bananas)
    ensures g == Tournament(bananas)
  {
    var n := |bananas|;
    g := map k | k in Indices(n) :: [];
    assert g.Keys == Indices(n);
    var i := 0;
    while i < n
      invariant 0 <= i <= n
      invariant Filled(bananas, g, i, i)
    {
      g := FillRow(bananas, g, i);
      i := i + 1;
    }
    FillDone(bananas, g);
  }

  /** One pass of the outer loop of `create_wrestling_tournament`: j runs from i to the end. */
  method FillRow(bananas: seq<nat>, g: Graph, i: nat) returns (g': Graph)
    requires Positive(bananas) && i < |bananas| && Filled(bananas, g, i, i)
    ensures Filled(bananas, g', i + 1, i + 1)
  {
    var n := |bananas|;
    g' := g;
    var j := i;
    while j < n
      invariant i <= j <= n
      invariant Filled(bananas, g', i, j)
    {
      g' := FillCell(bananas, g', i, j);
      j := j + 1;
    }
    FillRowDone(bananas, g', i);
  }

  /** The body of the inner loop: link i and j when they would wrestle forever. */
  method FillCell(bananas: seq<nat>, g: Graph, i: nat, j: nat) returns (g': Graph)
    requires Positive(bananas) && i <= j < |bananas| && Filled(bananas, g, i, j)
    ensures Filled(bananas, g', i, j + 1)
  {
    FillStep(bananas, g, i, j);
    g' := g;
    if i != j && InfiniteLoop(bananas[i], bananas[j]) {
      g' := AddEdge(g', i, j);
    }
  }

  /**
    The loop state of `CreateTournament` at (i, j): every trainer's list is its
    reference list cut at the point the loops have reached.
   */
  ghost predicate Filled(bananas: seq<nat>, g: Graph, i: nat, j: nat)
    requires Positive(bananas) && i <= j <= |bananas|
  {
    (forall k: nat :: k in g <==> k < |bananas|)
    && forall k: nat | k < |bananas| :: g[k] == NeighboursBelow(bananas, k, Progress(|bananas|, k, i, j))
  }

  lemma FillStep(bananas: seq<nat>, g: Graph, i: nat, j: nat)
    requires Positive(bananas) && i <= j < |bananas| && Filled(bananas, g, i, j)
    ensures Filled(bananas, Grow(bananas, g, i, j), i, j + 1)
  {
    if i != j && InfiniteLoop(bananas[i], bananas[j]) {
      FillStepEdge(bananas, g, i, j);
    } else {
      FillStepNoEdge(bananas, g, i, j);
    }
  }

  lemma FillStepEdge(bananas: seq<nat>, g: Graph, i: nat, j: nat)
    requires Positive(bananas) && i < j < |bananas| && Filled(bananas, g, i, j)
    requires InfiniteLoop(bananas[i], bananas[j])
    ensures i in g && j in g && Filled(bananas, AddEdge(g, i, j), i, j + 1)
  {
    var n := |bananas|;
    InnerStep(bananas, i, j);
    assert i in g && j in g;
    var g1 := AddEdge(g, i, j);
    forall k: nat | k < n
      ensures g1[k] == NeighboursBelow(bananas, k, Progress(n, k, i, j + 1))
    {
      if k == i {
        assert Progress(n, k, i, j + 1) == j + 1 && Progress(n, k, i, j) == j;
        assert g[i] == NeighboursBelow(bananas, i, j);
      } else if k == j {
        assert Progress(n, k, i, j + 1) == i + 1 && Progress(n, k, i, j) == i;
        assert g[j] == NeighboursBelow(bananas, j, i);
      } else {
        assert Progress(n, k, i, j + 1) == Progress(n, k, i, j);
      }
    }
  }

  lemma FillStepNoEdge(bananas: seq<nat>, g: Graph, i: nat, j: nat)
    requires Positive(bananas) && i <= j < |bananas| && Filled(bananas, g, i, j)
    requires !(i != j && InfiniteLoop(bananas[i], bananas[j]))
    ensures Filled(bananas, g, i, j + 1)
  {
    var n := |bananas|;
    InnerStep(bananas, i, j);
    forall k: nat | k < n
      ensures g[k] == NeighboursBelow(bananas, k, Progress(n, k, i, j + 1))
    {
      if k == i {
        assert Progress(n, k, i, j + 1) == j + 1 && Progress(n, k, i, j) == j;
      } else if k == j {
        assert Progress(n, k, i, j + 1) == i + 1 && Progress(n, k, i, j) == i;
      } else {
        assert Progress(n, k, i, j + 1) == Progress(n, k, i, j);
      }
    }
  }

  /** One inner iteration: the edge (i, j) is added when the pair wrestles forever. */
  function Grow(bananas: seq<nat>, g: Graph, i: nat, j: nat): (r: Graph)
    requires Positive(bananas) && i < |bananas| && j < |bananas| && i in g && j in g
  {
    if i != j && InfiniteLoop(bananas[i], bananas[j]) then AddEdge(g, i, j) else g
  }

  /** The two appends of one inner iteration: j onto i's list, then i onto j's. */
  function AddEdge(g: Graph, i: nat, j: nat): (r: Graph)
    requires i in g && j in g && i != j
    ensures r.Keys == g.Keys
    ensures r[i] == g[i] + [j] && r[j] == g[j] + [i]
    ensures forall k | k in g && k != i && k != j :: r[k] == g[k]
  {
    var withJ := g[i := g[i] + [j]];
    withJ[j := withJ[j] + [i]]
  }

  lemma FillRowDone(bananas: seq<nat>, g: Graph, i: nat)
    requires Positive(bananas) && i < |bananas| && Filled(bananas, g, i, |bananas|)
    ensures Filled(bananas, g, i + 1, i + 1)
  {
    var n := |bananas|;
    forall k: nat | k < n
      ensures Progress(n, k, i + 1, i + 1) == Progress(n, k, i, n)
    {
    }
  }

  lemma FillDone(bananas: seq<nat>, g: Graph)
    requires Positive(bananas) && Filled(bananas, g, |bananas|, |bananas|)
    ensures g == Tournament(bananas)
  {
    var n := |bananas|;
    forall k: nat | k < n
      ensures Progress(n, k, n, n) == n
    {
    }
  }

  /** The six-trainer example: trainers 0 (1 banana) and 1 (7 bananas) stop. */
  lemma SmallPairExamples()
    ensures !InfiniteLoop(1, 7)
    ensures InfiniteLoop(1, 4)
  {
    assert Gcd(1, 7) == 1 && Gcd(1, 4) == 1;
    assert 8 == Pow2(3);
    assert IsPowerOfTwo(5) == false by {
      assert And(5, 4) == 4;
    }
  }
}
