/**
  Level 2, "Don't Get Volunteered": the fewest chess-knight moves between two
  squares of an 8 x 8 board, squares numbered 0..63 row by row.  The source
  labels the board breadth-first from the source square.
 */
module DontGetVolunteered {
  import opened Common

  const RowSize: int := 8
  const ColSize: int := 8

  /** A square by its row and column. */
  datatype Pos = Pos(row: int, col: int)

  /** The eight knight moves, in the order the source tries them. */
  const KnightMoves: seq<(int, int)> :=
    [(1, 2), (1, -2), (-1, 2), (-1, -2), (2, 1), (2, -1), (-2, 1), (-2, -1)]

  predicate OnBoard(p: Pos)
  {
    0 <= p.row < RowSize && 0 <= p.col < ColSize
  }

  /** Square number to (row, column): `s / 8` and `s % 8`. */
  function ToPos(s: int): (p: Pos)
    requires 0 <= s < RowSize * ColSize
    ensures OnBoard(p)
  {
    Pos(s / RowSize, s % ColSize)
  }

  /** Where a square's label lives on the flattened board. */
  function Index(p: Pos): (i: nat)
    requires OnBoard(p)
    ensures i < RowSize * ColSize
  {
    p.row * ColSize + p.col
  }

  /** Numbering and coordinates are inverse to each other. */
  lemma IndexRoundTrip(s: int, p: Pos)
    requires 0 <= s < RowSize * ColSize && OnBoard(p)
    ensures Index(ToPos(s)) == s
    ensures ToPos(Index(p)) == p
  {
  }

  /** Different squares have different places on the board. */
  lemma IndexInjective(p: Pos, q: Pos)
    requires OnBoard(p) && OnBoard(q) && p != q
    ensures Index(p) != Index(q)
  {
  }

  function Add(p: Pos, m: (int, int)): (r: Pos)
  {
    Pos(p.row + m.0, p.col + m.1)
  }

  function Abs(x: int): (r: nat)
  {
    if x < 0 then -x else x
  }

  /** One knight move: two squares one way and one square across, in either order. */
  predicate KnightStep(a: Pos, b: Pos)
  {
    var dr, dc := Abs(b.row - a.row), Abs(b.col - a.col);
    (dr == 1 && dc == 2) || (dr == 2 && dc == 1)
  }

  /** The move table holds exactly the knight moves. */
  lemma KnightMovesAreSteps(a: Pos, k: nat)
    requires k < |KnightMoves|
    ensures KnightStep(a, Add(a, KnightMoves[k]))
  {
  }

  lemma StepInTable(a: Pos, b: Pos) returns (k: nat)
    requires KnightStep(a, b)
    ensures k < |KnightMoves| && b == Add(a, KnightMoves[k])
  {
    var dr, dc := b.row - a.row, b.col - a.col;
    k := if dr == 1 && dc == 2 then 0
      else if dr == 1 && dc == -2 then 1
      else if dr == -1 && dc == 2 then 2
      else if dr == -1 && dc == -2 then 3
      else if dr == 2 && dc == 1 then 4
      else if dr == 2 && dc == -1 then 5
      else if dr == -2 && dc == 1 then 6
      else 7;
  }

  /** A sequence of squares on the board, each a knight move from the one before. */
  ghost predicate Walk(w: seq<Pos>)
  {
    (forall i | 0 <= i < |w| :: OnBoard(w[i]))
    && forall i | 0 <= i < |w| - 1 :: KnightStep(w[i], w[i + 1])
  }

  /** A walk of `moves` moves from `a` to `b`. */
  ghost predicate WalkBetween(w: seq<Pos>, a: Pos, b: Pos, moves: nat)
  {
    Walk(w) && |w| == moves + 1 && w[0] == a && w[|w| - 1] == b
  }

  /** `d` is the fewest knight moves from `a` to `b`. */
  ghost predicate Distance(a: Pos, b: Pos, d: nat)
  {
    (exists w :: WalkBetween(w, a, b, d))
    && forall w, m: nat | WalkBetween(w, a, b, m) :: d <= m
  }

  /** The board, one label per square: `None` until the search reaches it. */
  type Board = seq<Option<nat>>

  function Label(board: Board, p: Pos): (r: Option<nat>)
    requires |board| == RowSize * ColSize && OnBoard(p)
  {
    board[Index(p)]
  }

  /** Squares still unlabelled. */
  function Unlabelled(board: Board): (r: nat)
    ensures r <= |board|
  {
    if board == [] then 0
    else Unlabelled(board[..|board| - 1]) + (if board[|board| - 1].None? then 1 else 0)
  }

  /** Labelling an unlabelled square leaves one fewer. */
  lemma {:induction false} UnlabelledDecreases(board: Board, i: nat, v: nat)
    requires i < |board| && board[i].None?
    ensures Unlabelled(board[i := Some(v)]) == Unlabelled(board) - 1
  {
    var last := |board| - 1;
    if i < last {
      assert board[i := Some(v)][..last] == board[..last][i := Some(v)];
      UnlabelledDecreases(board[..last], i, v);
    } else {
      assert board[i := Some(v)][..last] == board[..last];
    }
  }

  /** Labels, once written, are never changed. */
  ghost predicate Keeps(board: Board, board': Board)
    requires |board| == |board'| == RowSize * ColSize
  {
    forall p | OnBoard(p) && Label(board, p).Some? :: Label(board', p) == Label(board, p)
  }

  /**
    Every labelled square other than the source was discovered by a square
    one knight move away, labelled one less (`via` records which).
   */
  ghost predicate Discovered(source: Pos, board: Board, via: seq<Pos>)
    requires |board| == RowSize * ColSize && OnBoard(source)
  {
    |via| == RowSize * ColSize
    && Label(board, source) == Some(0)
    && forall p | OnBoard(p) && Label(board, p).Some? && p != source ::
         Label(board, p).value >= 1
         && OnBoard(via[Index(p)]) && KnightStep(via[Index(p)], p)
         && Label(board, via[Index(p)]) == Some(Label(board, p).value - 1)
  }

  /** The queue holds labelled squares whose labels climb by at most one, front to back. */
  ghost predicate QueueOrdered(board: Board, queue: seq<Pos>)
    requires |board| == RowSize * ColSize
  {
    (forall i | 0 <= i < |queue| :: OnBoard(queue[i]) && Label(board, queue[i]).Some?)
    && forall i, j | 0 <= i <= j < |queue| ::
         Label(board, queue[i]).value <= Label(board, queue[j]).value <= Label(board, queue[i]).value + 1
  }

  /** No label exceeds `bound`. */
  ghost predicate LabelsAtMost(board: Board, bound: nat)
    requires |board| == RowSize * ColSize
  {
    forall p | OnBoard(p) && Label(board, p).Some? :: Label(board, p).value <= bound
  }

  /** Every knight move from `p` that stays on the board reaches a square labelled at most one more. */
  ghost predicate Expanded(board: Board, p: Pos)
    requires |board| == RowSize * ColSize && OnBoard(p) && Label(board, p).Some?
  {
    forall k | 0 <= k < |KnightMoves| && OnBoard(Add(p, KnightMoves[k])) ::
      Label(board, Add(p, KnightMoves[k])).Some?
      && Label(board, Add(p, KnightMoves[k])).value <= Label(board, p).value + 1
  }

  /** The loop state of the search: `done` are the squares already popped. */
  ghost predicate Searching(source: Pos, board: Board, queue: seq<Pos>, via: seq<Pos>, done: set<Pos>)
  {
    |board| == RowSize * ColSize && OnBoard(source)
    && Discovered(source, board, via)
    && QueueOrdered(board, queue)
    && (|queue| > 0 ==> LabelsAtMost(board, Label(board, queue[0]).value + 1))
    && (forall p | p in done :: OnBoard(p) && Label(board, p).Some? && Expanded(board, p))
    && (forall p | OnBoard(p) && Label(board, p).Some? :: p in done || p in queue)
  }

  /**
    The source's `solution`: 0 for a square outside 0..63; otherwise the label
    the breadth-first search leaves on the destination, which is the fewest
    knight moves between the two squares (`None`, Python's `None`, only if no
    walk exists).
   */
  method Solution(src: int, dest: int) returns (r: Option<nat>)
    ensures src < 0 || src > 63 || dest < 0 || dest > 63 ==> r == Some(0)
    ensures 0 <= src <= 63 && 0 <= dest <= 63 ==>
              match r
              case Some(d) => Distance(ToPos(src), ToPos(dest), d)
              case None => forall w, m: nat :: !WalkBetween(w, ToPos(src), ToPos(dest), m)
    ensures 0 <= src <= 63 && src == dest ==> r == Some(0)
  {
    if src < 0 || src > 63 {
      return Some(0);
    }
    if dest < 0 || dest > 63 {
      return Some(0);
    }
    var source := ToPos(src);
    var destination := ToPos(dest);
    var board: Board := seq(RowSize * ColSize, _ => None);
    board := board[Index(source) := Some(0)];
    var queue := [source];
    ghost var via := seq(RowSize * ColSize, _ => source);
    ghost var done: set<Pos> := {};
    StartSearching(source, board, via);
    while |queue| > 0
      invariant Searching(source, board, queue, via, done)
      decreases Unlabelled(board), |queue|
    {
      var current := queue[0];
      ghost var popped := queue;
      queue := queue[1..];
      assert [current] + queue == popped;
      board, queue, via := Expand(source, board, queue, via, done, current);
      done := done + {current};
    }
    r := Label(board, destination);
    SearchComplete(source, board, via, done);
    forall w, m: nat | WalkBetween(w, source, destination, m)
      ensures r.Some? && r.value <= m
    {
      LabelsBoundWalks(source, board, w);
    }
    if r.Some? {
      var w := WalkTo(source, board, via, destination);
    }
  }

  lemma StartSearching(source: Pos, board: Board, via: seq<Pos>)
    requires OnBoard(source) && |board| == RowSize * ColSize && |via| == RowSize * ColSize
    requires forall i | 0 <= i < |board| :: board[i] == if i == Index(source) then Some(0) else None
    ensures Searching(source, board, [source], via, {})
  {
    forall p | OnBoard(p) && Label(board, p).Some?
      ensures p == source
    {
      if p != source {
        IndexInjective(p, source);
      }
    }
  }

  /**
    One pop of the search: try the eight moves from `current` in order and
    label (and enqueue) every on-board square not yet labelled.
   */
  method Expand(ghost source: Pos, board: Board, queue: seq<Pos>, ghost via: seq<Pos>, ghost done: set<Pos>, current: Pos)
    returns (board': Board, queue': seq<Pos>, ghost via': seq<Pos>)
    requires Searching(source, board, [current] + queue, via, done)
    ensures Searching(source, board', queue', via', done + {current})
    ensures Unlabelled(board') < Unlabelled(board) || (board' == board && queue' == queue)
  {
    Pop(source, board, queue, via, done, current);
    board' := board;
    queue' := queue;
    via' := via;
    var here := Label(board, current).value;
    var k := 0;
    while k < |KnightMoves|
      invariant 0 <= k <= |KnightMoves|
      invariant Expanding(source, board', queue', via', done, current, here, k)
      invariant Unlabelled(board') < Unlabelled(board) || (board' == board && queue' == queue)
    {
      board', queue', via' := TryMove(source, board', queue', via', done, current, here, k);
      k := k + 1;
    }
    ExpandDone(source, board', queue', via', done, current, here);
  }

  /**
    One iteration over the move table: if move `k` lands on the board on a
    square without a label, label it one more than `current` and enqueue it.
   */
  method TryMove(ghost source: Pos, board: Board, queue: seq<Pos>, ghost via: seq<Pos>, ghost done: set<Pos>,
                 current: Pos, here: nat, k: nat)
    returns (board': Board, queue': seq<Pos>, ghost via': seq<Pos>)
    requires k < |KnightMoves|
    requires Expanding(source, board, queue, via, done, current, here, k)
    ensures Expanding(source, board', queue', via', done, current, here, k + 1)
    ensures Unlabelled(board') < Unlabelled(board) || (board' == board && queue' == queue)
  {
    var next := Add(current, KnightMoves[k]);
    if OnBoard(next) && Label(board, next).None? {
      ExpandStep(source, board, queue, via, done, current, here, k);
      UnlabelledDecreases(board, Index(next), here + 1);
      board' := board[Index(next) := Some(here + 1)];
      queue' := queue + [next];
      via' := via[Index(next) := current];
    } else {
      ExpandSkip(source, board, queue, via, done, current, here, k);
      board', queue', via' := board, queue, via;
    }
  }

  /**
    The state of `Expand` after the first `k` moves: `current`, labelled
    `here`, is in neither the queue nor `done`, and its first `k` moves lead
    to labelled squares.
   */
  ghost predicate Expanding(source: Pos, board: Board, queue: seq<Pos>, via: seq<Pos>, done: set<Pos>,
                            current: Pos, here: nat, k: nat)
  {
    |board| == RowSize * ColSize && OnBoard(source) && OnBoard(current)
    && Label(board, current) == Some(here)
    && Discovered(source, board, via)
    && QueueOrdered(board, queue)
    && (|queue| > 0 ==> here <= Label(board, queue[0]).value)
    && LabelsAtMost(board, here + 1)
    && (forall p | p in done :: OnBoard(p) && Label(board, p).Some? && Expanded(board, p))
    && (forall p | OnBoard(p) && Label(board, p).Some? :: p in done || p in queue || p == current)
    && (forall j | 0 <= j < k && j < |KnightMoves| && OnBoard(Add(current, KnightMoves[j])) ::
          Label(board, Add(current, KnightMoves[j])).Some?
          && Label(board, Add(current, KnightMoves[j])).value <= here + 1)
  }

  /** Popping the front of the queue starts an expansion. */
  lemma Pop(source: Pos, board: Board, queue: seq<Pos>, via: seq<Pos>, done: set<Pos>, current: Pos)
    requires Searching(source, board, [current] + queue, via, done)
    ensures OnBoard(current) && Label(board, current).Some?
    ensures Expanding(source, board, queue, via, done, current, Label(board, current).value, 0)
  {
    var q := [current] + queue;
    assert q[0] == current;
    forall i | 0 <= i < |queue|
      ensures queue[i] == q[i + 1]
    {
    }
  }

  /** Labelling a fresh square `next` one more than `current` keeps the expansion state. */
  lemma ExpandStep(source: Pos, board: Board, queue: seq<Pos>, via: seq<Pos>, done: set<Pos>,
                   current: Pos, here: nat, k: nat)
    requires k < |KnightMoves|
    requires Expanding(source, board, queue, via, done, current, here, k)
    requires OnBoard(Add(current, KnightMoves[k])) && Label(board, Add(current, KnightMoves[k])).None?
    ensures
      var next := Add(current, KnightMoves[k]);
      Expanding(source, board[Index(next) := Some(here + 1)], queue + [next], via[Index(next) := current],
                done, current, here, k + 1)
  {
    var next := Add(current, KnightMoves[k]);
    var b2 := board[Index(next) := Some(here + 1)];
    var v2 := via[Index(next) := current];
    KnightMovesAreSteps(current, k);
    forall p | OnBoard(p) && p != next
      ensures Label(b2, p) == Label(board, p) && v2[Index(p)] == via[Index(p)]
    {
      IndexInjective(p, next);
    }
    StepDiscovered(source, board, via, b2, v2, current, next, here);
    StepQueue(board, queue, b2, next, here);
    forall p | p in done
      ensures OnBoard(p) && Label(b2, p).Some? && Expanded(b2, p)
    {
      StepKeepsExpanded(board, b2, p, next, here);
    }
    StepMoves(board, b2, current, next, here, k);
  }

  /** A square already expanded stays expanded when an unlabelled square gets its label. */
  lemma StepKeepsExpanded(board: Board, b2: Board, p: Pos, next: Pos, here: nat)
    requires |board| == |b2| == RowSize * ColSize && OnBoard(p) && OnBoard(next)
    requires Label(board, p).Some? && Expanded(board, p)
    requires Label(board, next).None? && Label(b2, next) == Some(here + 1)
    requires forall q | OnBoard(q) && q != next :: Label(b2, q) == Label(board, q)
    ensures Label(b2, p).Some? && Expanded(b2, p)
  {
  }

  /** The first k + 1 moves of `current` now all lead to labelled squares. */
  lemma StepMoves(board: Board, b2: Board, current: Pos, next: Pos, here: nat, k: nat)
    requires |board| == |b2| == RowSize * ColSize && OnBoard(current) && OnBoard(next)
    requires k < |KnightMoves| && next == Add(current, KnightMoves[k])
    requires forall j | 0 <= j < k && OnBoard(Add(current, KnightMoves[j])) ::
               Label(board, Add(current, KnightMoves[j])).Some?
               && Label(board, Add(current, KnightMoves[j])).value <= here + 1
    requires Label(board, next).None? && Label(b2, next) == Some(here + 1)
    requires forall q | OnBoard(q) && q != next :: Label(b2, q) == Label(board, q)
    ensures forall j | 0 <= j < k + 1 && OnBoard(Add(current, KnightMoves[j])) ::
              Label(b2, Add(current, KnightMoves[j])).Some?
              && Label(b2, Add(current, KnightMoves[j])).value <= here + 1
  {
  }

  /** A move off the board, or onto a labelled square, changes nothing. */
  lemma ExpandSkip(source: Pos, board: Board, queue: seq<Pos>, via: seq<Pos>, done: set<Pos>,
                   current: Pos, here: nat, k: nat)
    requires k < |KnightMoves|
    requires Expanding(source, board, queue, via, done, current, here, k)
    requires !(OnBoard(Add(current, KnightMoves[k])) && Label(board, Add(current, KnightMoves[k])).None?)
    ensures Expanding(source, board, queue, via, done, current, here, k + 1)
  {
  }

  lemma StepDiscovered(source: Pos, board: Board, via: seq<Pos>, b2: Board, v2: seq<Pos>, current: Pos, next: Pos, here: nat)
    requires |board| == |b2| == RowSize * ColSize && OnBoard(source) && OnBoard(current) && OnBoard(next)
    requires Discovered(source, board, via) && |v2| == |via|
    requires Label(board, current) == Some(here) && Label(board, next).None? && KnightStep(current, next)
    requires Label(b2, next) == Some(here + 1) && v2[Index(next)] == current
    requires forall p | OnBoard(p) && p != next :: Label(b2, p) == Label(board, p) && v2[Index(p)] == via[Index(p)]
    ensures Discovered(source, b2, v2)
  {
    assert source != next && current != next;
    forall p | OnBoard(p) && Label(b2, p).Some? && p != source
      ensures Label(b2, p).value >= 1
      ensures OnBoard(v2[Index(p)]) && KnightStep(v2[Index(p)], p)
      ensures Label(b2, v2[Index(p)]) == Some(Label(b2, p).value - 1)
    {
      if p != next {
        var prev := via[Index(p)];
        assert Label(board, p).Some? && Label(board, prev).Some?;
        assert prev != next;
      }
    }
  }

  lemma StepQueue(board: Board, queue: seq<Pos>, b2: Board, next: Pos, here: nat)
    requires |board| == |b2| == RowSize * ColSize && OnBoard(next)
    requires QueueOrdered(board, queue) && (|queue| > 0 ==> here <= Label(board, queue[0]).value)
    requires LabelsAtMost(board, here + 1)
    requires Label(board, next).None? && Label(b2, next) == Some(here + 1)
    requires forall p | OnBoard(p) && p != next :: Label(b2, p) == Label(board, p)
    ensures QueueOrdered(b2, queue + [next])
  {
    var q2 := queue + [next];
    forall i | 0 <= i < |queue|
      ensures Label(b2, queue[i]) == Label(board, queue[i])
      ensures here <= Label(board, queue[i]).value <= here + 1
    {
    }
  }

  /** After all eight moves, `current` joins the expanded squares. */
  lemma ExpandDone(source: Pos, board: Board, queue: seq<Pos>, via: seq<Pos>, done: set<Pos>, current: Pos, here: nat)
    requires Expanding(source, board, queue, via, done, current, here, |KnightMoves|)
    ensures Searching(source, board, queue, via, done + {current})
  {
    assert Expanded(board, current);
  }

  /** When the queue is empty, every labelled square has been expanded. */
  lemma SearchComplete(source: Pos, board: Board, via: seq<Pos>, done: set<Pos>)
    requires Searching(source, board, [], via, done)
    ensures forall p | OnBoard(p) && Label(board, p).Some? :: Expanded(board, p)
  {
  }

  /** Following `via` back from a labelled square gives a walk as long as its label. */
  lemma {:induction false} WalkTo(source: Pos, board: Board, via: seq<Pos>, p: Pos) returns (w: seq<Pos>)
    requires |board| == RowSize * ColSize && OnBoard(source) && OnBoard(p)
    requires Discovered(source, board, via) && Label(board, p).Some?
    ensures WalkBetween(w, source, p, Label(board, p).value)
    decreases Label(board, p).value
  {
    if p == source {
      w := [source];
    } else {
      var prev := via[Index(p)];
      var front := WalkTo(source, board, via, prev);
      w := front + [p];
      assert w[|w| - 2] == prev;
    }
  }

  /** In a fully expanded labelling, every walk from the source ends on a square labelled no more than its length. */
  lemma {:induction false} LabelsBoundWalks(source: Pos, board: Board, w: seq<Pos>)
    requires |board| == RowSize * ColSize && OnBoard(source) && Label(board, source) == Some(0)
    requires forall p | OnBoard(p) && Label(board, p).Some? :: Expanded(board, p)
    requires Walk(w) && |w| >= 1 && w[0] == source
    ensures Label(board, w[|w| - 1]).Some? && Label(board, w[|w| - 1]).value <= |w| - 1
  {
    if |w| > 1 {
      var front := w[..|w| - 1];
      assert Walk(front);
      LabelsBoundWalks(source, board, front);
      var a, b := w[|w| - 2], w[|w| - 1];
      assert KnightStep(a, b);
      var k := StepInTable(a, b);
    }
  }

  /** Every knight move changes the colour of the square. */
  lemma {:induction false} WalkColours(w: seq<Pos>)
    requires Walk(w) && |w| >= 1
    ensures (w[0].row + w[0].col + |w| - 1) % 2 == (w[|w| - 1].row + w[|w| - 1].col) % 2
  {
    if |w| > 1 {
      var front := w[..|w| - 1];
      assert Walk(front);
      WalkColours(front);
      var a, b := w[|w| - 2], w[|w| - 1];
      assert front[0] == w[0] && front[|front| - 1] == a;
      assert KnightStep(a, b);
      StepColour(a, b);
      ParityShift(w[0].row + w[0].col, |w|, a.row + a.col, b.row + b.col);
    }
  }

  /** One more move flips the parity once more. */
  lemma ParityShift(first: int, n: int, a: int, b: int)
    requires (first + n - 2) % 2 == a % 2 && (a + 1) % 2 == b % 2
    ensures (first + n - 1) % 2 == b % 2
  {
  }

  /** A knight move goes between squares of opposite colour. */
  lemma StepColour(a: Pos, b: Pos)
    requires KnightStep(a, b)
    ensures (a.row + a.col + 1) % 2 == (b.row + b.col) % 2
  {
  }

  /** Square 19 to square 36 is a single knight move. */
  lemma OneMoveExample()
    ensures Distance(ToPos(19), ToPos(36), 1)
  {
    var a, b := ToPos(19), ToPos(36);
    assert WalkBetween([a, b], a, b, 1);
  }

  /** Square 0 to square 1, the neighbouring corner square, takes three moves. */
  lemma ThreeMovesExample()
    ensures Distance(ToPos(0), ToPos(1), 3)
  {
    var a, b := ToPos(0), ToPos(1);
    var w := [a, Pos(2, 1), Pos(1, 3), b];
    assert WalkBetween(w, a, b, 3);
    forall v, m: nat | WalkBetween(v, a, b, m)
      ensures 3 <= m
    {
      WalkColours(v);
    }
  }
}
