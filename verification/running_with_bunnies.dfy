/**
  Level 4, "Running with Bunnies": relax the matrix of corridor times with
  Floyd–Warshall, then look for the largest group of bunnies that can be
  collected on a route from the start (row 0) to the bulkhead (the last row
  and column) within the time limit.
 */
module RunningWithBunnies {
  import opened Common

  /** The largest time limit the source accepts. */
  const MaxTimeLimit: int := 999

  /** A list of rows of times (Python's list of lists). */
  type Matrix = seq<seq<int>>

  /** Every row is at least as long as there are rows, so every (i, j) with i, j < n exists. */
  predicate Wide(g: Matrix)
  {
    forall i | 0 <= i < |g| :: |g[i]| >= |g|
  }

  predicate SameShape(a: Matrix, b: Matrix)
  {
    |a| == |b| && forall i | 0 <= i < |a| :: |a[i]| == |b[i]|
  }

  /** No entry of a is larger than the matching entry of b. */
  predicate Below(a: Matrix, b: Matrix)
    requires SameShape(a, b)
  {
    forall i, j | 0 <= i < |a| && 0 <= j < |a[i]| :: a[i][j] <= b[i][j]
  }

  /** The columns past the square part are the same in both. */
  predicate OutsideSame(a: Matrix, b: Matrix)
    requires SameShape(a, b)
  {
    forall i, j | 0 <= i < |a| && |a| <= j < |a[i]| :: a[i][j] == b[i][j]
  }

  /** A walk from i to j of at least one corridor, through rows of an n-row matrix. */
  predicate IsWalk(w: seq<nat>, i: nat, j: nat, n: nat)
  {
    |w| >= 2 && w[0] == i && w[|w| - 1] == j && forall t | 0 <= t < |w| :: w[t] < n
  }

  /** The time a walk takes in the matrix. */
  function Cost(g: Matrix, w: seq<nat>): (r: int)
    requires Wide(g) && forall t | 0 <= t < |w| :: w[t] < |g|
    decreases |w|
  {
    if |w| < 2 then 0 else g[w[0]][w[1]] + Cost(g, w[1..])
  }

  /** Walking a and then b (which starts where a ends) costs the sum of both. */
  lemma {:induction false} JoinCost(g: Matrix, a: seq<nat>, b: seq<nat>)
    requires Wide(g) && (forall t | 0 <= t < |a| :: a[t] < |g|) && (forall t | 0 <= t < |b| :: b[t] < |g|)
    requires |a| >= 1 && |b| >= 1 && a[|a| - 1] == b[0]
    ensures Cost(g, a + b[1..]) == Cost(g, a) + Cost(g, b)
    decreases |a|
  {
    if |a| == 1 {
      assert a + b[1..] == b;
    } else {
      assert (a + b[1..])[1..] == a[1..] + b[1..];
      JoinCost(g, a[1..], b);
    }
  }

  /** For each pair of rows, a walk between them. */
  type Walks = seq<seq<seq<nat>>>

  /** Every square entry of g is the time of the recorded walk in the original matrix g0. */
  predicate Witnessed(g0: Matrix, g: Matrix, walks: Walks)
    requires Wide(g0) && |g| == |g0|
  {
    |walks| == |g|
    && (forall i | 0 <= i < |g| :: |walks[i]| == |g| && |g[i]| >= |g|)
    && forall i, j | 0 <= i < |g| && 0 <= j < |g| ::
         IsWalk(walks[i][j], i, j, |g|) && Cost(g0, walks[i][j]) == g[i][j]
  }

  /**
    What relaxing promises: same shape, no entry larger, the columns past the
    square untouched, every square entry the time of some walk, and no square
    entry above the time of any walk that repeats no stop.
   */
  ghost predicate Relaxes(g: Matrix, r: Matrix)
    requires Wide(g)
  {
    SameShape(r, g) && Wide(r) && Below(r, g) && OutsideSame(r, g)
    && (forall i, j | 0 <= i < |g| && 0 <= j < |g| :: HasWalk(g, i, j, r[i][j]))
    && BoundedBy(g, r, |g|)
  }

  /** Some walk from i to j takes exactly time v in g. */
  ghost predicate HasWalk(g: Matrix, i: nat, j: nat, v: int)
    requires Wide(g)
  {
    exists w :: IsWalk(w, i, j, |g|) && Cost(g, w) == v
  }

  /**
    A walk that repeats no stop, except that it may end where it began: two
    positions hold the same row only when they are its two ends.
   */
  ghost predicate Simple(w: seq<nat>)
  {
    forall s, t | 0 <= s < t < |w| && (0 < s || t < |w| - 1) :: w[s] != w[t]
  }

  /** Every stop strictly inside the walk is one of the rows 0..k-1. */
  ghost predicate InnerBelow(w: seq<nat>, k: nat)
  {
    forall t | 0 < t < |w| - 1 :: w[t] < k
  }

  /** v is at most the time of every simple walk from i to j whose inner stops are below k. */
  ghost predicate Bounded(g: Matrix, v: int, i: nat, j: nat, k: nat)
    requires Wide(g)
  {
    forall w | IsWalk(w, i, j, |g|) && Simple(w) && InnerBelow(w, k) :: v <= Cost(g, w)
  }

  /** The Floyd–Warshall invariant after k rounds: every square entry of r is Bounded for k. */
  ghost predicate BoundedBy(g: Matrix, r: Matrix, k: nat)
    requires Wide(g) && |r| == |g| && Wide(r)
  {
    forall i, j | 0 <= i < |g| && 0 <= j < |g| :: Bounded(g, r[i][j], i, j, k)
  }

  /** v is the shortest time from i to j: some walk takes it and none takes less. */
  ghost predicate ShortestTime(g: Matrix, i: nat, j: nat, v: int)
    requires Wide(g)
  {
    HasWalk(g, i, j, v) && forall w | IsWalk(w, i, j, |g|) :: v <= Cost(g, w)
  }

  /** Some walk from a row back to itself takes negative time. */
  ghost predicate NegativeCycle(g: Matrix)
    requires Wide(g)
  {
    exists c: nat, w | c < |g| && IsWalk(w, c, c, |g|) :: Cost(g, w) < 0
  }

  /** Before the first round, the only walks without inner stops are single corridors. */
  lemma DirectBound(g: Matrix)
    requires Wide(g)
    ensures BoundedBy(g, g, 0)
  {
    forall i, j | 0 <= i < |g| && 0 <= j < |g|
      ensures Bounded(g, g[i][j], i, j, 0)
    {
      forall w | IsWalk(w, i, j, |g|) && Simple(w) && InnerBelow(w, 0)
        ensures g[i][j] <= Cost(g, w)
      {
        if |w| == 2 {
          assert w[1..] == [j];
        }
      }
    }
  }

  /** A smaller value keeps the bound. */
  lemma BoundedMono(g: Matrix, v: int, v': int, i: nat, j: nat, k: nat)
    requires Wide(g) && Bounded(g, v, i, j, k) && v' <= v
    ensures Bounded(g, v', i, j, k)
  {
  }

  /**
    A simple walk through row k splits there into two simple walks whose
    inner stops are below k, and its time is the sum of theirs.
   */
  lemma SplitAt(g: Matrix, w: seq<nat>, i: nat, j: nat, k: nat, t: nat)
    requires Wide(g) && IsWalk(w, i, j, |g|) && Simple(w) && InnerBelow(w, k + 1)
    requires 0 < t < |w| - 1 && w[t] == k
    ensures IsWalk(w[..t + 1], i, k, |g|) && Simple(w[..t + 1]) && InnerBelow(w[..t + 1], k)
    ensures IsWalk(w[t..], k, j, |g|) && Simple(w[t..]) && InnerBelow(w[t..], k)
    ensures Cost(g, w) == Cost(g, w[..t + 1]) + Cost(g, w[t..])
  {
    var a, b := w[..t + 1], w[t..];
    forall s | 0 < s < |a| - 1
      ensures a[s] < k
    {
      assert w[s] != w[t];
    }
    forall s | 0 < s < |b| - 1
      ensures b[s] < k
    {
      assert w[t] != w[t + s];
    }
    SimpleHead(w, t);
    SimpleTail(w, t);
    JoinAt(g, w, t);
  }

  /** A prefix that stops short of the last stop of a simple walk is simple. */
  lemma SimpleHead(w: seq<nat>, t: nat)
    requires Simple(w) && t < |w| - 1
    ensures Simple(w[..t + 1])
  {
    var a := w[..t + 1];
    forall s, u | 0 <= s < u < |a|
      ensures a[s] != a[u]
    {
      assert w[s] != w[u];
    }
  }

  /** A suffix that starts past the first stop of a simple walk is simple. */
  lemma SimpleTail(w: seq<nat>, t: nat)
    requires Simple(w) && 0 < t < |w|
    ensures Simple(w[t..])
  {
    var b := w[t..];
    forall s, u | 0 <= s < u < |b|
      ensures b[s] != b[u]
    {
      assert w[t + s] != w[t + u];
    }
  }

  /** Stops 0..t followed by the stops after t give the walk back. */
  lemma RejoinAt(w: seq<nat>, t: nat)
    requires t < |w|
    ensures w[..t + 1] + w[t..][1..] == w
  {
    assert w[t..][1..] == w[t + 1..];
  }

  /** A walk's time is the time up to stop t plus the time from stop t on. */
  lemma JoinAt(g: Matrix, w: seq<nat>, t: nat)
    requires Wide(g) && (forall x | 0 <= x < |w| :: w[x] < |g|) && t < |w|
    ensures Cost(g, w) == Cost(g, w[..t + 1]) + Cost(g, w[t..])
  {
    var a, b := w[..t + 1], w[t..];
    RejoinAt(w, t);
    assert forall x | 0 <= x < |a| :: a[x] == w[x];
    assert forall x | 0 <= x < |b| :: b[x] == w[t + x];
    JoinCost(g, a, b);
  }

  /**
    One relaxation through k: a value no larger than the entry and than the
    time through k bounds every simple walk whose inner stops are below k + 1.
   */
  lemma StepBound(g: Matrix, r: Matrix, k: nat, i: nat, j: nat, v: int)
    requires Wide(g) && |r| == |g| && Wide(r) && BoundedBy(g, r, k)
    requires k < |g| && i < |g| && j < |g|
    requires v <= r[i][j] && v <= r[i][k] + r[k][j]
    ensures Bounded(g, v, i, j, k + 1)
  {
    forall w | IsWalk(w, i, j, |g|) && Simple(w) && InnerBelow(w, k + 1)
      ensures v <= Cost(g, w)
    {
      if t :| 0 < t < |w| - 1 && w[t] == k {
        SplitAt(g, w, i, j, k, t);
        assert Bounded(g, r[i][k], i, k, k);
        assert Bounded(g, r[k][j], k, j, k);
      } else {
        assert InnerBelow(w, k);
        assert Bounded(g, r[i][j], i, j, k);
      }
    }
  }

  /**
    One update of the innermost loop: entry (i, j) drops to the time through
    k when that is strictly smaller, and nothing else changes.
   */
  method Relax(ghost g0: Matrix, g: Matrix, ghost walks: Walks, k: nat, i: nat, j: nat)
    returns (g': Matrix, ghost walks': Walks)
    requires Wide(g0) && |g| == |g0| && Witnessed(g0, g, walks)
    requires k < |g| && i < |g| && j < |g|
    ensures SameShape(g', g) && Witnessed(g0, g', walks')
    ensures g'[i][j] <= g[i][j] && g'[i][j] <= g[i][k] + g[k][j]
    ensures g'[i][j] == g[i][j] || g'[i][j] == g[i][k] + g[k][j]
    ensures forall a, b | 0 <= a < |g| && 0 <= b < |g[a]| && (a != i || b != j) :: g'[a][b] == g[a][b]
  {
    g' := g;
    walks' := walks;
    if g[i][j] > g[i][k] + g[k][j] {
      var row := g[i][j := g[i][k] + g[k][j]];
      g' := g[i := row];
      ghost var left, right := walks[i][k], walks[k][j];
      ghost var w := left + right[1..];
      JoinCost(g0, left, right);
      assert IsWalk(w, i, j, |g|) by {
        assert w[|w| - 1] == right[|right| - 1];
      }
      walks' := walks[i := walks[i][j := w]];
    }
  }

  /** The innermost loop for one row i and one step k. */
  method RelaxRow(ghost g0: Matrix, g: Matrix, ghost walks: Walks, k: nat, i: nat)
    returns (g': Matrix, ghost walks': Walks)
    requires Wide(g0) && |g| == |g0| && Witnessed(g0, g, walks)
    requires k < |g| && i < |g| && BoundedBy(g0, g, k)
    ensures SameShape(g', g) && Witnessed(g0, g', walks') && Below(g', g) && OutsideSame(g', g)
    ensures BoundedBy(g0, g', k)
    ensures forall b | 0 <= b < |g| :: Bounded(g0, g'[i][b], i, b, k + 1)
  {
    g' := g;
    walks' := walks;
    var j := 0;
    while j < |g|
      invariant 0 <= j <= |g|
      invariant SameShape(g', g) && Witnessed(g0, g', walks') && Below(g', g) && OutsideSame(g', g)
      invariant BoundedBy(g0, g', k)
      invariant forall b | 0 <= b < j :: Bounded(g0, g'[i][b], i, b, k + 1)
    {
      ghost var before := g';
      g', walks' := Relax(g0, g', walks', k, i, j);
      assert Bounded(g0, g'[i][j], i, j, k + 1) by {
        StepBound(g0, before, k, i, j, g'[i][j]);
      }
      assert BoundedBy(g0, g', k) by {
        forall a, b | 0 <= a < |g| && 0 <= b < |g|
          ensures Bounded(g0, g'[a][b], a, b, k)
        {
          BoundedMono(g0, before[a][b], g'[a][b], a, b, k);
        }
      }
      j := j + 1;
    }
  }

  /** The middle loop: every row for one step k. */
  method RelaxRound(ghost g0: Matrix, g: Matrix, ghost walks: Walks, k: nat)
    returns (g': Matrix, ghost walks': Walks)
    requires Wide(g0) && |g| == |g0| && Witnessed(g0, g, walks)
    requires k < |g| && BoundedBy(g0, g, k)
    ensures SameShape(g', g) && Witnessed(g0, g', walks') && Below(g', g) && OutsideSame(g', g)
    ensures BoundedBy(g0, g', k + 1)
  {
    g' := g;
    walks' := walks;
    var i := 0;
    while i < |g|
      invariant 0 <= i <= |g|
      invariant SameShape(g', g) && Witnessed(g0, g', walks') && Below(g', g) && OutsideSame(g', g)
      invariant BoundedBy(g0, g', k)
      invariant forall a, b | 0 <= a < i && 0 <= b < |g| :: Bounded(g0, g'[a][b], a, b, k + 1)
    {
      ghost var before := g';
      g', walks' := RelaxRow(g0, g', walks', k, i);
      forall a, b | 0 <= a < i && 0 <= b < |g|
        ensures Bounded(g0, g'[a][b], a, b, k + 1)
      {
        BoundedMono(g0, before[a][b], g'[a][b], a, b, k + 1);
      }
      i := i + 1;
    }
  }

  /** The one-corridor walks, which witness the unrelaxed matrix. */
  function DirectWalks(n: nat): (walks: Walks)
  {
    seq(n, i requires 0 <= i < n => seq(n, j requires 0 <= j < n => [i as nat, j as nat]))
  }

  lemma DirectWalksWitness(g: Matrix)
    requires Wide(g)
    ensures Witnessed(g, g, DirectWalks(|g|))
  {
    var walks := DirectWalks(|g|);
    forall i, j | 0 <= i < |g| && 0 <= j < |g|
      ensures IsWalk(walks[i][j], i, j, |g|) && Cost(g, walks[i][j]) == g[i][j]
    {
      assert walks[i][j] == [i, j];
      assert walks[i][j][1..] == [j];
    }
  }

  /**
    The source's `all_pairs_shortest_paths`, which relaxes the list of rows
    in place: the shape is kept, no entry grows, the columns past the n-th
    are untouched, and every entry of the square part ends up as the time of
    some walk in the original matrix and no more than any walk without
    repeated stops.  So the diagonal turns negative exactly when some cycle
    has negative time, and otherwise every entry is the shortest time.
   */
  method AllPairsShortestPaths(g: Matrix) returns (r: Matrix)
    requires Wide(g)
    ensures Relaxes(g, r)
    ensures NegativeDiagonal(r) <==> NegativeCycle(g)
    ensures !NegativeCycle(g) ==> forall i, j | 0 <= i < |g| && 0 <= j < |g| :: ShortestTime(g, i, j, r[i][j])
  {
    r := g;
    ghost var walks := DirectWalks(|g|);
    DirectWalksWitness(g);
    DirectBound(g);
    var k := 0;
    while k < |g|
      invariant 0 <= k <= |g|
      invariant SameShape(r, g) && Witnessed(g, r, walks) && Below(r, g) && OutsideSame(r, g)
      invariant BoundedBy(g, r, k)
    {
      r, walks := RelaxRound(g, r, walks, k);
      k := k + 1;
    }
    forall i, j | 0 <= i < |g| && 0 <= j < |g|
      ensures HasWalk(g, i, j, r[i][j])
    {
      assert IsWalk(walks[i][j], i, j, |g|) && Cost(g, walks[i][j]) == r[i][j];
    }
    NegativeDiagonalIsCycle(g, r);
  }

  /**
    Cutting the closed walk w[s..t] out of w (where w[s] == w[t], not both
    ends) leaves a shorter walk with the same ends; the time splits between
    the two.
   */
  lemma CutLoop(g: Matrix, w: seq<nat>, i: nat, j: nat, s: nat, t: nat)
    requires Wide(g) && IsWalk(w, i, j, |g|)
    requires s < t < |w| && w[s] == w[t] && (0 < s || t < |w| - 1)
    ensures IsWalk(w[s..t + 1], w[s], w[s], |g|) && |w[s..t + 1]| < |w|
    ensures IsWalk(w[..s + 1] + w[t + 1..], i, j, |g|) && |w[..s + 1] + w[t + 1..]| < |w|
    ensures Cost(g, w) == Cost(g, w[..s + 1] + w[t + 1..]) + Cost(g, w[s..t + 1])
  {
    var rest := w[..s + 1] + w[t + 1..];
    assert IsWalk(rest, i, j, |g|) by {
      assert rest[0] == w[0];
      assert rest[|rest| - 1] == w[|w| - 1];
    }
    CutLoopCost(g, w, s, t);
  }

  /** The time part of CutLoop. */
  lemma CutLoopCost(g: Matrix, w: seq<nat>, s: nat, t: nat)
    requires Wide(g) && (forall x | 0 <= x < |w| :: w[x] < |g|)
    requires s < t < |w| && w[s] == w[t]
    ensures Cost(g, w) == Cost(g, w[..s + 1] + w[t + 1..]) + Cost(g, w[s..t + 1])
  {
    JoinAt(g, w, s);
    SuffixSplit(g, w, s, t);
    SkipJoin(g, w, s, t);
  }

  /** From stop s on, a walk's time is the time from s to t plus the time from t on. */
  lemma SuffixSplit(g: Matrix, w: seq<nat>, s: nat, t: nat)
    requires Wide(g) && (forall x | 0 <= x < |w| :: w[x] < |g|)
    requires s <= t < |w|
    ensures Cost(g, w[s..]) == Cost(g, w[s..t + 1]) + Cost(g, w[t..])
  {
    var v := w[s..];
    assert forall x | 0 <= x < |v| :: v[x] == w[s + x];
    JoinAt(g, v, t - s);
    assert v[..t - s + 1] == w[s..t + 1];
    assert v[t - s..] == w[t..];
  }

  /**
    Skipping from stop s straight to the stop after t, where w[s] == w[t],
    costs the time up to s plus the time from t on.
   */
  lemma SkipJoin(g: Matrix, w: seq<nat>, s: nat, t: nat)
    requires Wide(g) && (forall x | 0 <= x < |w| :: w[x] < |g|)
    requires s < t < |w| && w[s] == w[t]
    ensures Cost(g, w[..s + 1] + w[t + 1..]) == Cost(g, w[..s + 1]) + Cost(g, w[t..])
  {
    var a, c := w[..s + 1], w[t..];
    assert forall x | 0 <= x < |a| :: a[x] == w[x];
    assert forall x | 0 <= x < |c| :: c[x] == w[t + x];
    assert c[1..] == w[t + 1..];
    JoinCost(g, a, c);
  }

  /**
    When no diagonal entry is negative, every square entry is at most the
    time of every walk, repeated stops included: each closed walk cut out
    of a walk takes no negative time.
   */
  lemma {:induction false} NoNegativeDiagonalBoundsWalks(g: Matrix, r: Matrix, i: nat, j: nat, w: seq<nat>)
    requires Wide(g) && Relaxes(g, r) && !NegativeDiagonal(r)
    requires i < |g| && j < |g| && IsWalk(w, i, j, |g|)
    ensures r[i][j] <= Cost(g, w)
    decreases |w|
  {
    if s, t :| 0 <= s < t < |w| && (0 < s || t < |w| - 1) && w[s] == w[t] {
      CutLoop(g, w, i, j, s, t);
      NoNegativeDiagonalBoundsWalks(g, r, w[s], w[s], w[s..t + 1]);
      NoNegativeDiagonalBoundsWalks(g, r, i, j, w[..s + 1] + w[t + 1..]);
    } else {
      assert Simple(w) && InnerBelow(w, |g|);
      assert Bounded(g, r[i][j], i, j, |g|);
    }
  }

  /**
    The relaxed diagonal is negative exactly when the input has a closed
    walk of negative time, and otherwise every square entry is the shortest
    time between its row and its column.
   */
  lemma NegativeDiagonalIsCycle(g: Matrix, r: Matrix)
    requires Wide(g) && Relaxes(g, r)
    ensures NegativeDiagonal(r) <==> NegativeCycle(g)
    ensures !NegativeCycle(g) ==> forall i, j | 0 <= i < |g| && 0 <= j < |g| :: ShortestTime(g, i, j, r[i][j])
  {
    if NegativeDiagonal(r) {
      var c :| 0 <= c < |g| && r[c][c] < 0;
      assert HasWalk(g, c, c, r[c][c]);
      var w :| IsWalk(w, c, c, |g|) && Cost(g, w) == r[c][c];
      assert NegativeCycle(g);
    } else {
      forall c: nat, w | c < |g| && IsWalk(w, c, c, |g|)
        ensures 0 <= Cost(g, w)
      {
        NoNegativeDiagonalBoundsWalks(g, r, c, c, w);
      }
      forall i, j | 0 <= i < |g| && 0 <= j < |g|
        ensures ShortestTime(g, i, j, r[i][j])
      {
        forall w | IsWalk(w, i, j, |g|)
          ensures r[i][j] <= Cost(g, w)
        {
          NoNegativeDiagonalBoundsWalks(g, r, i, j, w);
        }
      }
    }
  }

  /** The integers lo, lo + 1, ..., hi - 1 (Python's `range(lo, hi)`). */
  function Range(lo: int, hi: int): (r: seq<int>)
    ensures |r| == if hi > lo then hi - lo else 0
    ensures forall t | 0 <= t < |r| :: r[t] == lo + t
    decreases hi - lo
  {
    if lo >= hi then [] else [lo] + Range(lo + 1, hi)
  }

  /** Python's reading of an index, where -1 means the last entry. */
  function PyIndex(x: int, len: nat): (r: nat)
    requires -(len as int) <= x < len
    ensures r < len
  {
    if x < 0 then len + x else x
  }

  /** The stops of a route: the start (0), the bunnies in order, the bulkhead (-1). */
  function Stops(bunnies: seq<int>): (r: seq<int>)
  {
    [0] + bunnies + [-1]
  }

  /**
    The source's `path`: the corridors of the route that starts at 0, visits
    the given bunnies in order and ends at -1 (the bulkhead).
   */
  function PathPairs(bunnies: seq<int>): (r: seq<(int, int)>)
    ensures |r| == |bunnies| + 1
    ensures forall t | 0 <= t < |r| :: r[t] == (Stops(bunnies)[t], Stops(bunnies)[t + 1])
  {
    var stops := Stops(bunnies);
    seq(|bunnies| + 1, t requires 0 <= t < |bunnies| + 1 => (stops[t], stops[t + 1]))
  }

  /**
    The corridors chain up: the first leaves the start, each bunny is where
    one corridor ends and the next begins, and the last reaches the bulkhead.
   */
  lemma PathChains(bunnies: seq<int>)
    ensures PathPairs(bunnies)[0].0 == 0 && PathPairs(bunnies)[|bunnies|].1 == -1
    ensures forall t | 0 <= t < |bunnies| ::
              PathPairs(bunnies)[t].1 == bunnies[t] == PathPairs(bunnies)[t + 1].0
  {
    var r := PathPairs(bunnies);
    forall t | 0 <= t < |bunnies|
      ensures r[t].1 == bunnies[t] == r[t + 1].0
    {
      assert Stops(bunnies)[t + 1] == bunnies[t];
    }
  }

  /** Every stop is a row of the matrix. */
  predicate InRange(bunnies: seq<int>, n: nat)
  {
    forall t | 0 <= t < |bunnies| :: 0 <= bunnies[t] < n
  }

  /** Every corridor starts at a row and ends at a column that exist. */
  predicate ValidPairs(g: Matrix, pairs: seq<(int, int)>)
  {
    forall t | 0 <= t < |pairs| ::
      0 <= pairs[t].0 < |g| && -|g[pairs[t].0]| <= pairs[t].1 < |g[pairs[t].0]|
  }

  /** The time of a list of corridors, summed from the front. */
  function PairsTime(g: Matrix, pairs: seq<(int, int)>): (r: int)
    requires ValidPairs(g, pairs)
  {
    if pairs == [] then 0
    else
      var last := pairs[|pairs| - 1];
      PairsTime(g, pairs[..|pairs| - 1]) + g[last.0][PyIndex(last.1, |g[last.0]|)]
  }

  /** The corridors of a route through existing rows are valid. */
  lemma PathPairsValid(g: Matrix, bunnies: seq<int>)
    requires Wide(g) && |g| >= 1 && InRange(bunnies, |g|)
    ensures ValidPairs(g, PathPairs(bunnies))
  {
    var pairs := PathPairs(bunnies);
    forall t | 0 <= t < |pairs|
      ensures 0 <= pairs[t].0 < |g| && -|g[pairs[t].0]| <= pairs[t].1 < |g[pairs[t].0]|
    {
      if t > 0 {
        assert Stops(bunnies)[t] == bunnies[t - 1];
      }
      if t < |bunnies| {
        assert Stops(bunnies)[t + 1] == bunnies[t];
      }
    }
  }

  /** The time a route takes: start, the bunnies in order, bulkhead. */
  function RouteTime(g: Matrix, bunnies: seq<int>): (r: int)
    requires Wide(g) && |g| >= 1 && InRange(bunnies, |g|)
  {
    PathPairsValid(g, bunnies);
    PairsTime(g, PathPairs(bunnies))
  }

  /** The route exists and fits in the time limit. */
  predicate Fits(g: Matrix, bunnies: seq<int>, limit: int)
  {
    Wide(g) && |g| >= 1 && InRange(bunnies, |g|) && RouteTime(g, bunnies) <= limit
  }

  /** The source's inner loop: add up the corridor times of a route. */
  method RouteTotal(g: Matrix, bunnies: seq<int>) returns (total: int)
    requires Wide(g) && |g| >= 1 && InRange(bunnies, |g|)
    ensures total == RouteTime(g, bunnies)
  {
    var pairs := PathPairs(bunnies);
    PathPairsValid(g, bunnies);
    total := 0;
    var i := 0;
    while i < |pairs|
      invariant 0 <= i <= |pairs|
      invariant total == PairsTime(g, pairs[..i])
    {
      assert pairs[..i + 1][..i] == pairs[..i];
      var (from, to) := pairs[i];
      total := total + g[from][PyIndex(to, |g[from]|)];
      i := i + 1;
    }
    assert pairs[..i] == pairs;
  }

  /** s without its i-th entry. */
  function Without<T>(s: seq<T>, i: nat): (r: seq<T>)
    requires i < |s|
    ensures |r| == |s| - 1
  {
    s[..i] + s[i + 1..]
  }

  lemma WithoutContents<T>(s: seq<T>, i: nat)
    requires i < |s| && NoDuplicates(s)
    ensures NoDuplicates(Without(s, i))
    ensures forall x :: x in Without(s, i) <==> x in s && x != s[i]
  {
    var r := Without(s, i);
    forall a, b | 0 <= a < b < |r|
      ensures r[a] != r[b]
    {
      var a', b' := if a < i then a else a + 1, if b < i then b else b + 1;
      assert r[a] == s[a'] && r[b] == s[b'];
    }
    forall x | x in s && x != s[i]
      ensures x in r
    {
      var t :| 0 <= t < |s| && s[t] == x;
      if t < i {
        assert r[t] == x;
      } else {
        assert r[t - 1] == x;
      }
    }
    forall x | x in r
      ensures x in s && x != s[i]
    {
      var t :| 0 <= t < |r| && r[t] == x;
      if t < i {
        assert s[t] == x;
      } else {
        assert s[t + 1] == x;
      }
    }
  }

  /** Put x in front of every list. */
  function PrefixAll(x: int, ps: seq<seq<int>>): (r: seq<seq<int>>)
    ensures |r| == |ps|
    ensures forall k | 0 <= k < |r| :: r[k] == [x] + ps[k]
  {
    seq(|ps|, k requires 0 <= k < |ps| => [x] + ps[k])
  }

  /**
    Python's `itertools.permutations(pool, r)`: the arrangements of r
    distinct positions of the pool, in lexicographic order of positions.
   */
  function Permutations(pool: seq<int>, r: nat): (ps: seq<seq<int>>)
    decreases r, |pool| + 1
  {
    if r == 0 then [[]] else PermutationsFrom(pool, r, 0)
  }

  /** The arrangements whose first entry is pool[i] or a later one. */
  function PermutationsFrom(pool: seq<int>, r: nat, i: nat): (ps: seq<seq<int>>)
    requires r >= 1 && i <= |pool|
    decreases r, |pool| - i
  {
    if i == |pool| then []
    else PrefixAll(pool[i], Permutations(Without(pool, i), r - 1)) + PermutationsFrom(pool, r, i + 1)
  }

  /** An arrangement of r distinct entries of the pool. */
  predicate Arrangement(p: seq<int>, pool: seq<int>, r: nat)
  {
    |p| == r && NoDuplicates(p) && forall t | 0 <= t < |p| :: p[t] in pool
  }

  /** Everything listed is an arrangement of r distinct entries of the pool. */
  lemma {:induction false} PermutationsSound(pool: seq<int>, r: nat)
    requires NoDuplicates(pool)
    ensures forall p | p in Permutations(pool, r) :: Arrangement(p, pool, r)
    decreases r, |pool| + 1
  {
    if r > 0 {
      PermutationsFromSound(pool, r, 0);
    }
  }

  lemma {:induction false} PermutationsFromSound(pool: seq<int>, r: nat, i: nat)
    requires NoDuplicates(pool) && r >= 1 && i <= |pool|
    ensures forall p | p in PermutationsFrom(pool, r, i) :: Arrangement(p, pool, r)
    decreases r, |pool| - i
  {
    if i < |pool| {
      var rest := Without(pool, i);
      var tails := Permutations(rest, r - 1);
      WithoutContents(pool, i);
      PermutationsSound(rest, r - 1);
      PermutationsFromSound(pool, r, i + 1);
      forall p | p in PrefixAll(pool[i], tails)
        ensures Arrangement(p, pool, r)
      {
        var k :| 0 <= k < |tails| && p == [pool[i]] + tails[k];
        assert tails[k] in tails;
        assert p[1..] == tails[k];
        forall a, b | 0 <= a < b < |p|
          ensures p[a] != p[b]
        {
          assert p[b] == tails[k][b - 1] && p[b] in rest;
          if a > 0 {
            assert p[a] == tails[k][a - 1];
          }
        }
        forall t | 0 <= t < |p|
          ensures p[t] in pool
        {
          if t > 0 {
            assert p[t] == tails[k][t - 1] && p[t] in rest;
          }
        }
      }
    }
  }

  /** Every arrangement of distinct entries of the pool is listed. */
  lemma {:induction false} PermutationsComplete(pool: seq<int>, p: seq<int>)
    requires NoDuplicates(pool) && Arrangement(p, pool, |p|)
    ensures p in Permutations(pool, |p|)
    decreases |p|
  {
    if p != [] {
      var i :| 0 <= i < |pool| && pool[i] == p[0];
      var rest := Without(pool, i);
      var tail := p[1..];
      WithoutContents(pool, i);
      assert Arrangement(tail, rest, |tail|) by {
        forall t | 0 <= t < |tail|
          ensures tail[t] in rest
        {
          assert tail[t] == p[t + 1] && p[t + 1] != p[0];
          assert p[t + 1] in pool;
        }
        forall a, b | 0 <= a < b < |tail|
          ensures tail[a] != tail[b]
        {
          assert tail[a] == p[a + 1] && tail[b] == p[b + 1];
        }
      }
      PermutationsComplete(rest, tail);
      var tails := Permutations(rest, |p| - 1);
      var k :| 0 <= k < |tails| && tails[k] == tail;
      assert PrefixAll(pool[i], tails)[k] == p;
      assert p in PermutationsFrom(pool, |p|, i);
      PermutationsFromGrow(pool, |p|, 0, i, p);
    }
  }

  /** Starting the listing earlier only adds to it. */
  lemma {:induction false} PermutationsFromGrow(pool: seq<int>, r: nat, j: nat, i: nat, p: seq<int>)
    requires r >= 1 && j <= i <= |pool| && p in PermutationsFrom(pool, r, i)
    ensures p in PermutationsFrom(pool, r, j)
    decreases i - j
  {
    if j < i {
      PermutationsFromGrow(pool, r, j + 1, i, p);
      var front := PrefixAll(pool[j], Permutations(Without(pool, j), r - 1));
      assert PermutationsFrom(pool, r, j) == front + PermutationsFrom(pool, r, j + 1);
    }
  }

  /** There are no arrangements longer than the pool. */
  lemma {:induction false} PermutationsTooLong(pool: seq<int>, r: nat)
    requires r > |pool|
    ensures Permutations(pool, r) == []
    decreases r, |pool| + 1
  {
    PermutationsFromTooLong(pool, r, 0);
  }

  lemma {:induction false} PermutationsFromTooLong(pool: seq<int>, r: nat, i: nat)
    requires r > |pool| && i <= |pool|
    ensures PermutationsFrom(pool, r, i) == []
    decreases r, |pool| - i
  {
    if i < |pool| {
      var rest := Without(pool, i);
      PermutationsTooLong(rest, r - 1);
      PermutationsFromTooLong(pool, r, i + 1);
      assert |PrefixAll(pool[i], Permutations(rest, r - 1))| == 0;
    }
  }


  /** Arrangements of one entry are the entries themselves, in pool order. */
  lemma {:induction false} PermutationsFromOne(pool: seq<int>, i: nat)
    requires i <= |pool|
    ensures |PermutationsFrom(pool, 1, i)| == |pool| - i
    ensures forall t | 0 <= t < |pool| - i :: PermutationsFrom(pool, 1, i)[t] == [pool[i + t]]
    decreases |pool| - i
  {
    if i < |pool| {
      PermutationsFromOne(pool, i + 1);
      assert Permutations(Without(pool, i), 0) == [[]];
      assert [pool[i]] + [] == [pool[i]];
      var front := PrefixAll(pool[i], Permutations(Without(pool, i), 0));
      assert front == [[pool[i]]];
      var rest := PermutationsFrom(pool, 1, i + 1);
      assert PermutationsFrom(pool, 1, i) == front + rest;
    }
  }

  lemma PrefixPair(x: int, a: int, b: int)
    ensures PrefixAll(x, [[a], [b]]) == [[x, a], [x, b]]
  {
    assert [x] + [a] == [x, a] && [x] + [b] == [x, b];
  }

  /** The source's worked example of the order: two of 1, 2, 3. */
  lemma PermutationsExample()
    ensures Permutations([1, 2, 3], 2) == [[1, 2], [1, 3], [2, 1], [2, 3], [3, 1], [3, 2]]
  {
    var pool := [1, 2, 3];
    assert Without(pool, 0) == [2, 3] && Without(pool, 1) == [1, 3] && Without(pool, 2) == [1, 2];
    PermutationsFromOne([2, 3], 0);
    PermutationsFromOne([1, 3], 0);
    PermutationsFromOne([1, 2], 0);
    assert Permutations([2, 3], 1) == [[2], [3]];
    assert Permutations([1, 3], 1) == [[1], [3]];
    assert Permutations([1, 2], 1) == [[1], [2]];
    assert PermutationsFrom(pool, 2, 3) == [];
    PrefixPair(3, 1, 2);
    assert PermutationsFrom(pool, 2, 2) == [[3, 1], [3, 2]];
    PrefixPair(2, 1, 3);
    assert PermutationsFrom(pool, 2, 1) == [[2, 1], [2, 3], [3, 1], [3, 2]];
    PrefixPair(1, 2, 3);
  }

  /** The source's worked example of a route: bunnies 1, 3, 2. */
  lemma PathExample()
    ensures PathPairs([1, 3, 2]) == [(0, 1), (1, 3), (3, 2), (2, -1)]
  {
  }

  /** The bunny rows 1 .. count, the pool the search draws from. */
  function Pool(count: int): (r: seq<int>)
  {
    Range(1, count + 1)
  }

  lemma PoolContents(count: int)
    ensures NoDuplicates(Pool(count))
    ensures forall x :: x in Pool(count) <==> 1 <= x <= count
  {
    var r := Pool(count);
    forall x | 1 <= x <= count
      ensures x in r
    {
      assert r[x - 1] == x;
    }
  }

  /** A route through distinct bunny rows. */
  predicate IsRoute(p: seq<int>, count: int)
  {
    NoDuplicates(p) && forall t | 0 <= t < |p| :: 1 <= p[t] <= count
  }

  /**
    Python's `sorted(bunny - 1 for bunny in bunnies)` for distinct rows
    1 .. k: the ids x < k with x + 1 on the route, in ascending order.
   */
  function Ids(p: seq<int>, k: nat): (r: seq<int>)
  {
    if k == 0 then [] else Ids(p, k - 1) + (if k in p then [k - 1] else [])
  }

  /** The ids are ascending and are exactly the route's rows less one. */
  lemma {:induction false} IdsContents(p: seq<int>, k: nat)
    ensures StrictlyAscending(Ids(p, k))
    ensures forall x :: x in Ids(p, k) <==> 0 <= x < k && x + 1 in p
  {
    if k > 0 {
      IdsContents(p, k - 1);
      var front := Ids(p, k - 1);
      var r := Ids(p, k);
      forall a, b | 0 <= a < b < |r|
        ensures r[a] < r[b]
      {
        if b >= |front| {
          assert r[a] == front[a] && front[a] in front;
        } else {
          assert r[a] == front[a] && r[b] == front[b];
        }
      }
    }
  }

  /** Without any of the rows 1 .. k on the route there are no ids. */
  lemma {:induction false} IdsNone(p: seq<int>, k: nat)
    requires forall x | 1 <= x <= k :: x !in p
    ensures Ids(p, k) == []
  {
    if k > 0 {
      IdsNone(p, k - 1);
    }
  }

  /** Ids below k depend only on which of 1 .. k are on the route. */
  lemma {:induction false} IdsAgree(p: seq<int>, q: seq<int>, k: nat)
    requires forall x | 1 <= x <= k :: x in p <==> x in q
    ensures Ids(p, k) == Ids(q, k)
  {
    if k > 0 {
      IdsAgree(p, q, k - 1);
    }
  }

  /** One more row x on the route gives one more id. */
  lemma {:induction false} IdsAddOne(p: seq<int>, q: seq<int>, k: nat, x: int)
    requires 1 <= x <= k && x !in q
    requires forall y | 1 <= y <= k :: y in p <==> (y in q || y == x)
    ensures |Ids(p, k)| == |Ids(q, k)| + 1
  {
    if k == x {
      IdsAgree(p, q, k - 1);
    } else {
      IdsAddOne(p, q, k - 1, x);
    }
  }

  /** A route through rows 1 .. k has as many ids as stops. */
  lemma {:induction false} IdsLength(p: seq<int>, k: nat)
    requires IsRoute(p, k)
    ensures |Ids(p, k)| == |p|
    decreases |p|
  {
    if p == [] {
      IdsNone(p, k);
    } else {
      var q := p[1..];
      assert IsRoute(q, k) by {
        forall a, b | 0 <= a < b < |q|
          ensures q[a] != q[b]
        {
          assert q[a] == p[a + 1] && q[b] == p[b + 1];
        }
        forall t | 0 <= t < |q|
          ensures 1 <= q[t] <= k
        {
          assert q[t] == p[t + 1];
        }
      }
      assert p[0] !in q by {
        forall t | 0 <= t < |q|
          ensures q[t] != p[0]
        {
          assert q[t] == p[t + 1];
        }
      }
      assert p == [p[0]] + q;
      IdsLength(q, k);
      IdsAddOne(p, q, k, p[0]);
    }
  }

  /** The diagonal holds a negative entry: a negative cycle, so time is unbounded. */
  predicate NegativeDiagonal(g: Matrix)
    requires Wide(g)
  {
    exists i | 0 <= i < |g| :: g[i][i] < 0
  }

  /** The source's diagonal scan. */
  method FindNegativeDiagonal(g: Matrix) returns (found: bool)
    requires Wide(g)
    ensures found <==> NegativeDiagonal(g)
  {
    var bunny := 0;
    while bunny < |g|
      invariant 0 <= bunny <= |g|
      invariant forall i | 0 <= i < bunny :: g[i][i] >= 0
    {
      if g[bunny][bunny] < 0 {
        return true;
      }
      bunny := bunny + 1;
    }
    return false;
  }

  /** r is the ids of the first arrangement of its size, in listing order, that fits. */
  predicate FoundAt(g: Matrix, count: nat, limit: int, r: seq<int>, idx: nat)
  {
    var ps := Permutations(Pool(count), |r|);
    idx < |ps| && Fits(g, ps[idx], limit)
    && (forall e | 0 <= e < idx :: !Fits(g, ps[e], limit))
    && r == Ids(ps[idx], count)
  }

  /**
    What the search promises: ascending ids of bunnies that exist, taken from
    the first fitting arrangement of their size, and no route through more
    bunnies fits at all.
   */
  ghost predicate Rescued(g: Matrix, count: nat, limit: int, r: seq<int>)
  {
    StrictlyAscending(r)
    && (forall t | 0 <= t < |r| :: 0 <= r[t] < count)
    && (forall p | IsRoute(p, count) && |p| > |r| :: !Fits(g, p, limit))
    && (r != [] ==> exists idx: nat :: FoundAt(g, count, limit, r, idx))
  }

  /** If no arrangement of any size above m fits, no route longer than m fits. */
  lemma NoneLonger(g: Matrix, count: nat, limit: int, m: int)
    requires forall s: nat, e | m < s && 0 <= e < |Permutations(Pool(count), s)| :: !Fits(g, Permutations(Pool(count), s)[e], limit)
    ensures forall p | IsRoute(p, count) && |p| > m :: !Fits(g, p, limit)
  {
    PoolContents(count);
    forall p | IsRoute(p, count) && |p| > m
      ensures !Fits(g, p, limit)
    {
      var pool := Pool(count);
      PermutationsComplete(pool, p);
      var ps := Permutations(pool, |p|);
      var e :| 0 <= e < |ps| && ps[e] == p;
    }
  }

  /** Each listed arrangement of bunny rows is a route of the listed size. */
  lemma ArrangementAt(count: nat, size: nat, idx: nat)
    requires idx < |Permutations(Pool(count), size)|
    ensures IsRoute(Permutations(Pool(count), size)[idx], count)
    ensures |Permutations(Pool(count), size)[idx]| == size
  {
    var pool := Pool(count);
    var perms := Permutations(pool, size);
    PoolContents(count);
    PermutationsSound(pool, size);
    assert perms[idx] in perms;
  }

  /** The source's loop over the arrangements of one size, stopping at the first that fits. */
  method ScanSize(g: Matrix, count: nat, size: nat, limit: int) returns (found: bool, idx: nat)
    requires Wide(g) && |g| == count + 2
    ensures idx <= |Permutations(Pool(count), size)|
    ensures forall e | 0 <= e < idx :: !Fits(g, Permutations(Pool(count), size)[e], limit)
    ensures found ==> idx < |Permutations(Pool(count), size)| && Fits(g, Permutations(Pool(count), size)[idx], limit)
    ensures !found ==> idx == |Permutations(Pool(count), size)|
  {
    var perms := Permutations(Pool(count), size);
    idx := 0;
    while idx < |perms|
      invariant 0 <= idx <= |perms|
      invariant forall e | 0 <= e < idx :: !Fits(g, perms[e], limit)
    {
      var bunnies := perms[idx];
      ArrangementAt(count, size, idx);
      var total := RouteTotal(g, bunnies);
      if total <= limit {
        return true, idx;
      }
      idx := idx + 1;
    }
    return false, idx;
  }

  /** The first fitting arrangement of the largest size that has one gives a rescued set. */
  lemma FirstFitRescued(g: Matrix, count: nat, limit: int, size: nat, idx: nat)
    requires idx < |Permutations(Pool(count), size)| && Fits(g, Permutations(Pool(count), size)[idx], limit)
    requires forall e | 0 <= e < idx :: !Fits(g, Permutations(Pool(count), size)[e], limit)
    requires forall s: nat, e | size < s && 0 <= e < |Permutations(Pool(count), s)| :: !Fits(g, Permutations(Pool(count), s)[e], limit)
    ensures Rescued(g, count, limit, Ids(Permutations(Pool(count), size)[idx], count))
  {
    var bunnies := Permutations(Pool(count), size)[idx];
    var r := Ids(bunnies, count);
    ArrangementAt(count, size, idx);
    IdsContents(bunnies, count);
    IdsLength(bunnies, count);
    assert |r| == size;
    NoneLonger(g, count, limit, size);
    assert FoundAt(g, count, limit, r, idx);
    forall t | 0 <= t < |r|
      ensures 0 <= r[t] < count
    {
      assert r[t] in r;
    }
  }

  /**
    The source's search: sizes from every bunny down to none, arrangements in
    listing order; the first route that fits gives the answer.
   */
  method Search(g: Matrix, limit: int) returns (r: seq<int>)
    requires Wide(g) && |g| >= 2
    ensures Rescued(g, |g| - 2, limit, r)
  {
    var count: nat := |g| - 2;
    var pool := Pool(count);
    forall s: nat | s > count
      ensures Permutations(pool, s) == []
    {
      PermutationsTooLong(pool, s);
    }
    var size := count;
    while size >= 0
      invariant -1 <= size <= count
      invariant forall s: nat, e | size < s && 0 <= e < |Permutations(pool, s)| :: !Fits(g, Permutations(pool, s)[e], limit)
    {
      var found, idx := ScanSize(g, count, size, limit);
      if found {
        FirstFitRescued(g, count, limit, size, idx);
        return Ids(Permutations(pool, size)[idx], count);
      }
      size := size - 1;
    }
    r := [];
    NoneLonger(g, count, limit, -1);
  }

  /**
    What the source's `solution` does after relaxing: a negative diagonal
    entry rescues every bunny; otherwise the search's answer, and [] when
    there are no bunny rows.
   */
  method RescueFrom(relaxed: Matrix, timeLimit: int) returns (r: seq<int>)
    requires Wide(relaxed)
    ensures NegativeDiagonal(relaxed) ==> r == Range(0, |relaxed| - 2)
    ensures !NegativeDiagonal(relaxed) ==>
              if |relaxed| < 2 then r == [] else Rescued(relaxed, |relaxed| - 2, timeLimit, r)
  {
    var n := |relaxed|;
    var bunnyCount := n - 2;
    var negative := FindNegativeDiagonal(relaxed);
    if negative {
      return Range(0, bunnyCount);
    }
    if n < 2 {
      return [];
    }
    r := Search(relaxed, timeLimit);
  }

  /**
    The source's `solution`.  It returns the relaxed matrix too, since the
    source relaxes the caller's list in place.  A time limit outside 0..999
    gives [] with the matrix untouched.  Otherwise the diagonal turns
    negative exactly when some cycle takes negative time, and then every
    bunny is rescued; without such a cycle every relaxed entry is the
    shortest time, and the answer is the search's (or [] when there are no
    bunny rows).
   */
  method Solution(times: Matrix, timeLimit: int) returns (r: seq<int>, relaxed: Matrix)
    requires 0 <= timeLimit <= MaxTimeLimit ==> Wide(times)
    ensures timeLimit < 0 || timeLimit > MaxTimeLimit ==> r == [] && relaxed == times
    ensures 0 <= timeLimit <= MaxTimeLimit ==> Relaxes(times, relaxed)
    ensures 0 <= timeLimit <= MaxTimeLimit && Wide(relaxed) ==> (NegativeDiagonal(relaxed) <==> NegativeCycle(times))
    ensures 0 <= timeLimit <= MaxTimeLimit && !NegativeCycle(times) ==>
              forall i, j | 0 <= i < |times| && 0 <= j < |times| :: ShortestTime(times, i, j, relaxed[i][j])
    ensures 0 <= timeLimit <= MaxTimeLimit && Wide(relaxed) && NegativeDiagonal(relaxed) ==> r == Range(0, |times| - 2)
    ensures 0 <= timeLimit <= MaxTimeLimit && Wide(relaxed) && !NegativeDiagonal(relaxed) ==>
              if |times| < 2 then r == [] else Rescued(relaxed, |times| - 2, timeLimit, r)
  {
    if timeLimit < 0 || timeLimit > MaxTimeLimit {
      return [], times;
    }
    relaxed := AllPairsShortestPaths(times);
    assert |relaxed| == |times|;
    r := RescueFrom(relaxed, timeLimit);
  }
}
