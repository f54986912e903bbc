/**
  Level 3, "The Grandest Staircase": count the staircases of at least two
  steps, each strictly taller than the one before, that use exactly n bricks
  (the partitions of n into at least two distinct parts).
 */
module GrandestStaircase {
  import opened Common

  /** The smallest and largest brick budgets the source names. */
  const MinBricks: int := 3
  const MaxBricks: int := 200

  /**
    The source's recurrence: the number of staircases whose lowest step is at
    least `height` tall and which use exactly `bricks` bricks.  Either the
    lowest step is exactly `height` tall, or every step is taller still.
   */
  function Combinations(height: nat, bricks: nat): (r: nat)
    requires height >= 1
    decreases bricks + 1 - height
  {
    if bricks == 0 then 1
    else if bricks < height then 0
    else Combinations(height + 1, bricks - height) + Combinations(height + 1, bricks)
  }

  /** The sum of the step heights. */
  function Sum(s: seq<nat>): (r: nat)
  {
    if s == [] then 0 else s[0] + Sum(s[1..])
  }

  /** A staircase of `bricks` bricks whose steps are all at least `height` tall. */
  predicate IsStaircase(s: seq<nat>, height: nat, bricks: nat)
  {
    (forall i | 0 <= i < |s| :: s[i] >= height)
    && StrictlyAscending(s)
    && Sum(s) == bricks
  }

  /** Put a step of the given height below every staircase of the list. */
  function Prepend(height: nat, ss: seq<seq<nat>>): (r: seq<seq<nat>>)
    ensures |r| == |ss|
  {
    if ss == [] then [] else [[height] + ss[0]] + Prepend(height, ss[1..])
  }

  /** Entry i of the list with a step put below is entry i with that step below it. */
  lemma {:induction false} PrependAt(height: nat, ss: seq<seq<nat>>, i: nat)
    requires i < |ss|
    ensures Prepend(height, ss)[i] == [height] + ss[i]
  {
    if i > 0 {
      PrependAt(height, ss[1..], i - 1);
    }
  }

  /**
    Every staircase of the recurrence, listed explicitly: an independent
    enumeration against which the count is checked.
   */
  function Stairs(height: nat, bricks: nat): (r: seq<seq<nat>>)
    requires height >= 1
    decreases bricks + 1 - height
  {
    if bricks == 0 then [[]]
    else if bricks < height then []
    else Prepend(height, Stairs(height + 1, bricks - height)) + Stairs(height + 1, bricks)
  }

  /** The recurrence counts the enumeration. */
  lemma {:induction false} StairsCount(height: nat, bricks: nat)
    requires height >= 1
    ensures |Stairs(height, bricks)| == Combinations(height, bricks)
    decreases bricks + 1 - height
  {
    if bricks != 0 && bricks >= height {
      StairsCount(height + 1, bricks - height);
      StairsCount(height + 1, bricks);
    }
  }

  /** Everything enumerated is a staircase of the right kind. */
  lemma {:induction false} StairsSound(height: nat, bricks: nat)
    requires height >= 1
    ensures forall s | s in Stairs(height, bricks) :: IsStaircase(s, height, bricks)
    decreases bricks + 1 - height
  {
    if bricks != 0 && bricks >= height {
      var low := Stairs(height + 1, bricks - height);
      var high := Stairs(height + 1, bricks);
      StairsSound(height + 1, bricks - height);
      StairsSound(height + 1, bricks);
      forall s | s in Prepend(height, low)
        ensures IsStaircase(s, height, bricks)
      {
        var i :| 0 <= i < |low| && Prepend(height, low)[i] == s;
        PrependAt(height, low, i);
        assert low[i] in low;
        assert s[1..] == low[i];
      }
    }
  }

  /** Everything of the right kind is enumerated. */
  lemma {:induction false} StairsComplete(s: seq<nat>, height: nat, bricks: nat)
    requires height >= 1 && IsStaircase(s, height, bricks)
    ensures s in Stairs(height, bricks)
    decreases bricks + 1 - height, 1
  {
    if s == [] {
      assert Stairs(height, bricks) == [[]];
    } else if s[0] == height {
      CompleteWithBottom(s, height, bricks);
    } else {
      CompleteAbove(s, height, bricks);
    }
  }

  /** A staircase whose bottom step is exactly h is listed through its upper steps. */
  lemma {:induction false} CompleteWithBottom(s: seq<nat>, height: nat, bricks: nat)
    requires height >= 1 && IsStaircase(s, height, bricks) && s != [] && s[0] == height
    ensures s in Stairs(height, bricks)
    decreases bricks + 1 - height, 0
  {
    BottomFits(s, height, bricks);
    DropBottomStep(s, height, bricks);
    StairsComplete(s[1..], height + 1, bricks - height);
    WithBottomStep(s, height, bricks);
  }

  /** A staircase whose bottom step is above h is listed among those with steps above h. */
  lemma {:induction false} CompleteAbove(s: seq<nat>, height: nat, bricks: nat)
    requires height >= 1 && IsStaircase(s, height, bricks) && s != [] && s[0] > height
    ensures s in Stairs(height, bricks)
    decreases bricks + 1 - height, 0
  {
    assert height <= bricks && bricks != 0 by {
      BottomFits(s, height, bricks);
    }
    assert s in Stairs(height + 1, bricks) by {
      RaiseFloor(s, height, bricks);
      StairsComplete(s, height + 1, bricks);
    }
    WithoutBottomStep(s, height, bricks);
  }

  /** A staircase with a step has bricks to spare for its bottom step. */
  lemma BottomFits(s: seq<nat>, height: nat, bricks: nat)
    requires height >= 1 && IsStaircase(s, height, bricks) && s != []
    ensures height <= s[0] <= bricks && bricks != 0
  {
    assert Sum(s) == s[0] + Sum(s[1..]);
  }

  /** A bottom step of h on a listed staircase of the rest gives a listed staircase. */
  lemma WithBottomStep(s: seq<nat>, height: nat, bricks: nat)
    requires height >= 1 && s != [] && s[0] == height && height <= bricks
    requires s[1..] in Stairs(height + 1, bricks - height)
    ensures s in Stairs(height, bricks)
  {
    var low := Stairs(height + 1, bricks - height);
    var i :| 0 <= i < |low| && low[i] == s[1..];
    PrependAt(height, low, i);
    assert Prepend(height, low)[i] == [height] + s[1..] == s;
  }

  /** A staircase listed with steps above h is listed with steps from h. */
  lemma WithoutBottomStep(s: seq<nat>, height: nat, bricks: nat)
    requires height >= 1 && height <= bricks && bricks != 0
    requires s in Stairs(height + 1, bricks)
    ensures s in Stairs(height, bricks)
  {
  }

  /** Without its bottom step of height h, a staircase has its steps above h. */
  lemma DropBottomStep(s: seq<nat>, height: nat, bricks: nat)
    requires IsStaircase(s, height, bricks) && s != [] && s[0] == height
    ensures IsStaircase(s[1..], height + 1, bricks - height)
  {
    var rest := s[1..];
    forall i, j | 0 <= i < j < |rest|
      ensures rest[i] < rest[j]
    {
      assert rest[i] == s[i + 1] && rest[j] == s[j + 1];
    }
    forall i | 0 <= i < |rest|
      ensures rest[i] >= height + 1
    {
      assert rest[i] == s[i + 1] > s[0];
    }
  }

  /** A staircase whose bottom step is above h has every step above h. */
  lemma RaiseFloor(s: seq<nat>, height: nat, bricks: nat)
    requires IsStaircase(s, height, bricks) && s != [] && s[0] > height
    ensures IsStaircase(s, height + 1, bricks)
  {
    forall i | 0 < i < |s|
      ensures s[i] >= height + 1
    {
      assert s[i] > s[0];
    }
  }

  /** The enumeration lists no staircase twice. */
  lemma {:induction false} StairsDistinct(height: nat, bricks: nat)
    requires height >= 1
    ensures NoDuplicates(Stairs(height, bricks))
    decreases bricks + 1 - height
  {
    if bricks != 0 && bricks >= height {
      var low := Stairs(height + 1, bricks - height);
      var high := Stairs(height + 1, bricks);
      var front := Prepend(height, low);
      StairsDistinct(height + 1, bricks - height);
      StairsDistinct(height + 1, bricks);
      StairsSound(height + 1, bricks);
      assert NoDuplicates(front) by {
        forall i, j | 0 <= i < j < |front|
          ensures front[i] != front[j]
        {
          PrependAt(height, low, i);
          PrependAt(height, low, j);
          assert front[i][1..] == low[i] && front[j][1..] == low[j];
        }
      }
      forall i, j | 0 <= i < |front| && 0 <= j < |high|
        ensures front[i] != high[j]
      {
        assert high[j] in high;
        PrependAt(height, low, i);
        if high[j] != [] {
          assert front[i][0] == height < high[j][0];
        }
      }
      AppendDistinct(front, high);
    }
  }

  /** Two duplicate-free lists with nothing in common join into one. */
  lemma AppendDistinct<T>(a: seq<T>, b: seq<T>)
    requires NoDuplicates(a) && NoDuplicates(b)
    requires forall i, j | 0 <= i < |a| && 0 <= j < |b| :: a[i] != b[j]
    ensures NoDuplicates(a + b)
  {
    forall i, j | 0 <= i < j < |a + b|
      ensures (a + b)[i] != (a + b)[j]
    {
      if j < |a| {
        assert (a + b)[i] == a[i] && (a + b)[j] == a[j];
      } else if i < |a| {
        assert (a + b)[i] == a[i] && (a + b)[j] == b[j - |a|];
      } else {
        assert (a + b)[i] == b[i - |a|] && (a + b)[j] == b[j - |a|];
      }
    }
  }

  /** How many staircases of a list have at least `steps` steps. */
  function CountAtLeast(ss: seq<seq<nat>>, steps: nat): (r: nat)
    ensures r <= |ss|
  {
    if ss == [] then 0 else (if |ss[0]| >= steps then 1 else 0) + CountAtLeast(ss[1..], steps)
  }

  lemma {:induction false} CountAppend(a: seq<seq<nat>>, b: seq<seq<nat>>, steps: nat)
    ensures CountAtLeast(a + b, steps) == CountAtLeast(a, steps) + CountAtLeast(b, steps)
  {
    if a != [] {
      assert (a + b)[1..] == a[1..] + b;
      CountAppend(a[1..], b, steps);
    } else {
      assert a + b == b;
    }
  }

  /** An added bottom step adds one step to every staircase of the list. */
  lemma {:induction false} CountPrepend(height: nat, ss: seq<seq<nat>>, steps: nat)
    ensures CountAtLeast(Prepend(height, ss), steps + 1) == CountAtLeast(ss, steps)
  {
    if ss != [] {
      CountPrepend(height, ss[1..], steps);
      assert Prepend(height, ss)[1..] == Prepend(height, ss[1..]);
    }
  }

  /** Every list entry has at least no steps. */
  lemma {:induction false} CountAll(ss: seq<seq<nat>>)
    ensures CountAtLeast(ss, 0) == |ss|
  {
    if ss != [] {
      CountAll(ss[1..]);
    }
  }

  /** Counting over the two halves of the recurrence's list. */
  lemma CountSplit(height: nat, low: seq<seq<nat>>, high: seq<seq<nat>>, steps: nat)
    ensures CountAtLeast(Prepend(height, low) + high, steps + 1) == CountAtLeast(low, steps) + CountAtLeast(high, steps + 1)
    ensures |Prepend(height, low) + high| == |low| + |high|
  {
    CountAppend(Prepend(height, low), high, steps + 1);
    CountPrepend(height, low, steps);
  }

  /** Only the zero-brick enumeration holds the empty staircase. */
  lemma {:induction false} NonEmptyStairs(height: nat, bricks: nat)
    requires height >= 1
    ensures CountAtLeast(Stairs(height, bricks), 1) == |Stairs(height, bricks)| - (if bricks == 0 then 1 else 0)
    decreases bricks + 1 - height
  {
    if bricks != 0 && bricks >= height {
      var low := Stairs(height + 1, bricks - height);
      var high := Stairs(height + 1, bricks);
      assert Stairs(height, bricks) == Prepend(height, low) + high;
      CountSplit(height, low, high, 0);
      CountAll(low);
      NonEmptyStairs(height + 1, bricks);
    }
  }

  /**
    Of the staircases of a positive number of bricks, exactly one (the single
    step holding every brick, present when it is tall enough) has fewer than
    two steps.
   */
  lemma {:induction false} TwoStepStairs(height: nat, bricks: nat)
    requires height >= 1 && bricks >= 1
    ensures CountAtLeast(Stairs(height, bricks), 2) == |Stairs(height, bricks)| - (if bricks >= height then 1 else 0)
    decreases bricks + 1 - height, 1
  {
    if bricks >= height {
      TwoStepsFromBottom(height, bricks);
    }
  }

  /**
    The inductive step of `TwoStepStairs`: with a bottom step of h, only the
    staircase of that single step falls short; above it, the counts of the
    recursion apply.
   */
  lemma {:induction false} TwoStepsFromBottom(height: nat, bricks: nat)
    requires height >= 1 && bricks >= height
    ensures CountAtLeast(Stairs(height, bricks), 2) == |Stairs(height, bricks)| - 1
    decreases bricks + 1 - height, 0
  {
    var low := Stairs(height + 1, bricks - height);
    var high := Stairs(height + 1, bricks);
    var dl, dh := if bricks == height then 1 else 0, if bricks > height then 1 else 0;
    assert CountAtLeast(low, 1) == |low| - dl by {
      NonEmptyStairs(height + 1, bricks - height);
    }
    assert CountAtLeast(high, 2) == |high| - dh by {
      TwoStepStairs(height + 1, bricks);
    }
    CountCombine(Stairs(height, bricks), height, low, high, dl, dh);
  }

  /** Counts of the two halves, each short by some amount, give the count of the whole. */
  lemma CountCombine(all: seq<seq<nat>>, height: nat, low: seq<seq<nat>>, high: seq<seq<nat>>, dl: int, dh: int)
    requires all == Prepend(height, low) + high
    requires CountAtLeast(low, 1) == |low| - dl && CountAtLeast(high, 2) == |high| - dh
    ensures CountAtLeast(all, 2) == |all| - dl - dh
  {
    CountSplit(height, low, high, 1);
  }

  /** The memo table: a square grid, zero meaning "not yet computed". */
  type Memo = seq<seq<nat>>

  predicate IsTable(memo: Memo)
  {
    forall i | 0 <= i < |memo| :: |memo[i]| == |memo|
  }

  /** The cache never disagrees with the recurrence. */
  predicate Cached(memo: Memo)
    requires IsTable(memo)
  {
    forall i, j | 1 <= i < |memo| && 0 <= j < |memo| :: memo[i][j] != 0 ==> memo[i][j] == Combinations(i, j)
  }

  /** The table of the given size with every entry zero. */
  function EmptyTable(size: nat): (memo: Memo)
    ensures |memo| == size && IsTable(memo)
    ensures forall i, j | 0 <= i < size && 0 <= j < size :: memo[i][j] == 0
  {
    seq(size, i => seq(size, j => 0))
  }

  /**
    The source's `staircase_combinations`: the memoised recurrence.  The table
    is threaded through as a value; every read and write stays inside it, its
    shape never changes and it remains a faithful cache.
   */
  method StaircaseCombinations(height: nat, bricks: nat, memo: Memo) returns (r: nat, memo': Memo)
    requires IsTable(memo) && Cached(memo)
    requires 1 <= height < |memo| && bricks + 2 <= |memo|
    ensures r == Combinations(height, bricks)
    ensures IsTable(memo') && |memo'| == |memo| && Cached(memo')
    decreases |memo| + bricks - height
  {
    memo' := memo;
    if memo[height][bricks] != 0 {
      return memo[height][bricks], memo';
    }
    if bricks == 0 {
      return 1, memo';
    }
    if bricks < height {
      return 0, memo';
    }
    var low, high;
    low, memo' := StaircaseCombinations(height + 1, bricks - height, memo');
    high, memo' := StaircaseCombinations(height + 1, bricks, memo');
    r := low + high;
    memo' := Store(memo', height, bricks, r);
  }

  /** Writing a correct value keeps the cache correct. */
  function Store(memo: Memo, height: nat, bricks: nat, v: nat): (memo': Memo)
    requires IsTable(memo) && Cached(memo)
    requires 1 <= height < |memo| && bricks < |memo| && v == Combinations(height, bricks)
    ensures IsTable(memo') && |memo'| == |memo| && Cached(memo')
    ensures memo'[height][bricks] == v
  {
    var row: seq<nat> := memo[height][bricks := v];
    memo[height := row]
  }

  /**
    The source's `solution`: 0 when more than 200 bricks are asked for (the
    chained comparison `3 < n > 200` tests only that); otherwise the number
    of staircases of at least two steps built from exactly n bricks.  A
    negative n makes the source index outside its table, hence the
    precondition.
   */
  method Solution(n: int) returns (r: int)
    requires n >= 0
    ensures n > MaxBricks ==> r == 0
    ensures n <= MaxBricks ==> r == Combinations(1, n) - 1
    ensures n <= MaxBricks ==> r == CountAtLeast(Stairs(1, n), 2)
  {
    if MinBricks < n && n > MaxBricks {
      return 0;
    }
    var combinations := EmptyTable(n + 2);
    var count;
    count, combinations := StaircaseCombinations(1, n, combinations);
    r := count as int - 1;
    StairsCount(1, n);
    if n >= 1 {
      TwoStepStairs(1, n);
    }
  }

  /** The worked budgets of two to four bricks: none, one and one staircase. */
  lemma SmallBudgets()
    ensures Combinations(1, 2) - 1 == 0
    ensures Combinations(1, 3) - 1 == 1 && Combinations(1, 4) - 1 == 1
  {
    assert Combinations(2, 2) == 1;
    assert Combinations(1, 2) == 1;
    assert Combinations(3, 3) == 1;
    assert Combinations(2, 3) == 1;
    assert Combinations(1, 3) == 2;
    assert Combinations(4, 4) == 1;
    assert Combinations(3, 4) == 1;
    assert Combinations(2, 4) == 1;
    assert Combinations(1, 4) == 2;
  }

  /** The worked budgets of five and six bricks: two and three staircases. */
  lemma FiveAndSixBricks()
    ensures Combinations(1, 5) - 1 == 2 && Combinations(1, 6) - 1 == 3
  {
    assert Combinations(4, 4) == 1;
    assert Combinations(3, 4) == 1;
    assert Combinations(2, 4) == 1;
    assert Combinations(3, 3) == 1;
    assert Combinations(5, 5) == 1;
    assert Combinations(4, 5) == 1;
    assert Combinations(3, 5) == 1;
    assert Combinations(2, 5) == 2;
    assert Combinations(1, 5) == 3;
    assert Combinations(6, 6) == 1;
    assert Combinations(5, 6) == 1;
    assert Combinations(4, 6) == 1;
    assert Combinations(3, 6) == 1;
    assert Combinations(2, 6) == 2;
    assert Combinations(1, 6) == 4;
  }
}
