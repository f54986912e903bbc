/**
  Level 2, "Ion Flux Relabeling": the converters form a perfect binary tree of
  height h whose nodes are labelled 1 .. 2^h - 1 in post-order; for each
  queried label, report the label of its parent (-1 for the root).
 */
module IonFluxRelabeling {
  import opened Common
  import opened Bits

  /** No more than this many converters are queried or reported. */
  const ConverterLimit: int := 10000

  /** The answer for the root, and for refused input. */
  const NoSuchConverter: int := -1

  /**
    Reference parent: the subtree of height k (k >= 2) holding the labels
    lo .. lo + 2^k - 2 in post-order has its root last, its left subtree
    first (labels lo .. lo + 2^(k-1) - 2) and its right subtree in between.
   */
  function SubtreeParent(lo: int, k: nat, node: int): (r: int)
    requires k >= 2 && lo <= node < lo + Pow2(k) - 2
    ensures node < r <= lo + Pow2(k) - 2
    decreases k
  {
    var root := lo + Pow2(k) - 2;
    var leftRoot := lo + Pow2(k - 1) - 2;
    if node == leftRoot || node == root - 1 then root
    else if node < leftRoot then SubtreeParent(lo, k - 1, node)
    else SubtreeParent(leftRoot + 1, k - 1, node)
  }

  /** The two children of a subtree's root: just below it, and 2^(k-1) below it. */
  lemma RootChildren(lo: int, k: nat)
    requires k >= 2
    ensures Pow2(k) == 2 * Pow2(k - 1) >= 4
    ensures SubtreeParent(lo, k, lo + Pow2(k) - 3) == lo + Pow2(k) - 2
    ensures SubtreeParent(lo, k, lo + Pow2(k) - 2 - Pow2(k - 1)) == lo + Pow2(k) - 2
  {
    assert Pow2(k - 1) == 2 * Pow2(k - 2);
  }

  /**
    A parent is always one or a power of two above its child: the right child
    sits just below its parent and the left child 2^(j-1) below a parent
    whose subtree has height j.
   */
  lemma {:induction false} ParentDistance(lo: int, k: nat, node: int) returns (j: nat)
    requires k >= 2 && lo <= node < lo + Pow2(k) - 2
    ensures SubtreeParent(lo, k, node) - node == 1 || SubtreeParent(lo, k, node) - node == Pow2(j)
    decreases k
  {
    var root := lo + Pow2(k) - 2;
    var leftRoot := lo + Pow2(k - 1) - 2;
    if node == leftRoot {
      assert Pow2(k) == 2 * Pow2(k - 1);
      j := k - 1;
    } else if node == root - 1 {
      j := 0;
    } else if node < leftRoot {
      j := ParentDistance(lo, k - 1, node);
    } else {
      j := ParentDistance(leftRoot + 1, k - 1, node);
    }
  }

  /**
    The answer `parent` gives for any label it terminates on: `None`
    (Python's `None`) for labels below 1, -1 for the root, otherwise the
    parent in the tree of height h.
   */
  function TreeParent(h: nat, node: int): (r: Option<int>)
    requires h >= 1 && node <= Pow2(h) - 1
  {
    if node == Pow2(h) - 1 then Some(NoSuchConverter)
    else if node <= 0 then None
    else Some(SubtreeParent(1, h, node))
  }

  /**
    The source's `parent`: a bisection over [start, end], where end is the
    current subtree's root and start is its first label or one less.  Labels
    between 2^h and 2^(h+1) - 1 make the source loop forever, hence the
    precondition.
   */
  method Parent(h: nat, node: int) returns (r: Option<int>)
    requires h >= 1 && node <= Pow2(h) - 1
    ensures r == TreeParent(h, node)
    ensures 1 <= node < Pow2(h) - 1 ==> r.Some? && node < r.value <= Pow2(h) - 1
  {
    var start := 1;
    var root := Pow2(h) - 1;
    if node == root {
      return Some(NoSuchConverter);
    }
    var end := root;
    ghost var lo := 1;
    ghost var k := h;
    while node > 0
      invariant node > 0 ==> k >= 2 && lo <= node < lo + Pow2(k) - 2 && end == lo + Pow2(k) - 2
      invariant start == lo || start == lo - 1
      invariant node > 0 ==> SubtreeParent(lo, k, node) == SubtreeParent(1, h, node)
      decreases k
    {
      end := end - 1;
      var middleNode := start + (end - start) / 2;
      MiddleIsLeftRoot(lo, k, start);
      if middleNode == node || end == node {
        return Some(end + 1);
      } else if node < middleNode {
        end := middleNode;
        k := k - 1;
      } else {
        start := middleNode;
        lo := middleNode + 1;
        k := k - 1;
      }
    }
    return None;
  }

  /** With start one below the first label or equal to it, the midpoint is the left subtree's root. */
  lemma MiddleIsLeftRoot(lo: int, k: nat, start: int)
    requires k >= 2 && (start == lo || start == lo - 1)
    ensures start + (lo + Pow2(k) - 3 - start) / 2 == lo + Pow2(k - 1) - 2
  {
    assert Pow2(k) == 2 * Pow2(k - 1);
  }

  /**
    Reference answer list: the parents of the converters no larger than
    `maxNodes`, in query order, each kept only the first time it appears.
   */
  function Collect(h: nat, maxNodes: int, q: seq<int>): (r: seq<Option<int>>)
    requires h >= 1 && forall i | 0 <= i < |q| :: q[i] <= maxNodes ==> q[i] <= Pow2(h) - 1
  {
    if q == [] then []
    else
      var front := Collect(h, maxNodes, q[..|q| - 1]);
      var x := q[|q| - 1];
      if x <= maxNodes && TreeParent(h, x) !in front then front + [TreeParent(h, x)] else front
  }

  /** The reference list has no repeats and holds exactly the parents of the kept converters. */
  lemma {:induction false} CollectContents(h: nat, maxNodes: int, q: seq<int>)
    requires h >= 1 && forall i | 0 <= i < |q| :: q[i] <= maxNodes ==> q[i] <= Pow2(h) - 1
    ensures NoDuplicates(Collect(h, maxNodes, q))
    ensures |Collect(h, maxNodes, q)| <= |q|
    ensures forall i | 0 <= i < |q| && q[i] <= maxNodes :: TreeParent(h, q[i]) in Collect(h, maxNodes, q)
    ensures forall y | y in Collect(h, maxNodes, q) ::
              exists i | 0 <= i < |q| :: q[i] <= maxNodes && TreeParent(h, q[i]) == y
  {
    if q != [] {
      var front := q[..|q| - 1];
      CollectContents(h, maxNodes, front);
      forall i | 0 <= i < |q| - 1
        ensures q[i] == front[i]
      {
      }
    }
  }

  /** The input the source answers without looping forever. */
  predicate Answerable(h: int, q: seq<int>)
  {
    Refused(h, q)
    || forall i | 0 <= i < |q| :: !(Pow2(h) - 1 < q[i] <= Pow2(h + 1) - 1)
  }

  /** The source's refusals, each answered with [-1]. */
  predicate Refused(h: int, q: seq<int>)
  {
    h < 1 || h > 30 || |q| > Pow2(h + 1) - 1 || |q| < 1 || |q| > ConverterLimit
  }

  /**
    The source's `solution`: [-1] for refused input; otherwise the distinct
    parents of the in-range converters in query order, or [-1] when there are
    none.
   */
  method Solution(h: int, q: seq<int>) returns (p: seq<Option<int>>)
    requires Answerable(h, q)
    ensures Refused(h, q) ==> p == [Some(NoSuchConverter)]
    ensures !Refused(h, q) ==>
              var c := Collect(h, Pow2(h + 1) - 1, q);
              p == if c == [] then [Some(NoSuchConverter)] else c
    ensures 1 <= |p| <= ConverterLimit && NoDuplicates(p)
  {
    if h < 1 || h > 30 {
      return [Some(NoSuchConverter)];
    }
    var maxNodes := Pow2(h + 1) - 1;
    var numFluxConverters := |q|;
    if numFluxConverters > maxNodes {
      return [Some(NoSuchConverter)];
    }
    if numFluxConverters < 1 || numFluxConverters > ConverterLimit {
      return [Some(NoSuchConverter)];
    }
    p := [];
    var i := 0;
    while i < |q|
      invariant 0 <= i <= |q|
      invariant p == Collect(h, maxNodes, q[..i])
      invariant |p| <= i
    {
      assert q[..i + 1][..i] == q[..i];
      if |p| >= ConverterLimit {
        break;
      }
      var fluxConverter := q[i];
      if fluxConverter <= maxNodes {
        var parentNode := Parent(h, fluxConverter);
        if parentNode !in p {
          p := p + [parentNode];
        }
      }
      i := i + 1;
    }
    assert q[..i] == q;
    CollectContents(h, maxNodes, q);
    if |p| < 1 {
      p := [Some(NoSuchConverter)];
    }
  }

  /** The worked example of height 3: 7 is the root, 3 and 6 are children of 7, 5 of 6 and 1 of 3. */
  lemma HeightThreeParents()
    ensures TreeParent(3, 7) == Some(-1) && TreeParent(3, 3) == Some(7)
    ensures TreeParent(3, 5) == Some(6) && TreeParent(3, 1) == Some(3)
  {
    assert Pow2(3) == 8 && Pow2(2) == 4 && Pow2(1) == 2;
    assert SubtreeParent(1, 2, 1) == 3;
  }
}
