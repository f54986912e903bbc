/**
  Level 3, "Queue To Do": the security checksum of a triangular queue of
  worker IDs, computed row by row with a closed form for the XOR of a run
  of consecutive integers.
 */
module QueueToDo {
  import opened Common
  import opened Bits

  /** IDs are at most this large (the source's `max_id`). */
  const MaxId: int := 2000000000

  /** The XOR of every integer first, first+1, ..., last, folded from the left. */
  function XorRange(first: nat, last: nat): (r: nat)
    requires first <= last
    decreases last - first
  {
    if last == first then first else Xor(XorRange(first, last - 1), last)
  }

  /**
    The source's `xor_of_sequence`: a four-entry pattern chosen by the parity of
    `first`, indexed by the distance to `last` modulo 4.  Its contract is that
    the pattern agrees with the plain fold over the range.
   */
  function XorOfSequence(first: nat, last: nat): (r: nat)
    requires first <= last
    ensures r == XorRange(first, last)
  {
    XorOfSequenceIsRangeXor(first, last);
    XorPattern(first, last)
  }

  /** The entry of the source's four-element pattern list selected by `(last - first) % 4`. */
  function XorPattern(first: nat, last: nat): (r: nat)
    requires first <= last
  {
    var index := (last - first) % 4;
    if first % 2 == 0 then
      (if index == 0 then last else if index == 1 then 1 else if index == 2 then last + 1 else 0)
    else
      (if index == 0 then first else if index == 1 then Xor(first, last)
       else if index == 2 then first - 1 else Xor(first - 1, last))
  }

  lemma {:induction false} XorOfSequenceIsRangeXor(first: nat, last: nat)
    requires first <= last
    ensures XorPattern(first, last) == XorRange(first, last)
    decreases last - first
  {
    if last > first {
      XorOfSequenceIsRangeXor(first, last - 1);
      if first % 2 == 0 {
        EvenPatternStep(first, last);
      } else {
        OddPatternStep(first, last);
      }
    }
  }

  /** Extending a range that starts at an even number by one element moves the pattern on by one entry. */
  lemma EvenPatternStep(first: nat, last: nat)
    requires first < last && first % 2 == 0
    ensures XorPattern(first, last) == Xor(XorPattern(first, last - 1), last)
  {
    var d := last - first;
    if d % 4 == 1 {
      assert XorPattern(first, last - 1) == last - 1 && XorPattern(first, last) == 1;
      assert (last - 1) % 2 == 0;
      EvenXorSuccessor(last - 1);
    } else if d % 4 == 2 {
      assert XorPattern(first, last - 1) == 1 && XorPattern(first, last) == last + 1;
      assert last % 2 == 0;
      EvenXorOne(last);
    } else if d % 4 == 3 {
      assert XorPattern(first, last - 1) == last && XorPattern(first, last) == 0;
      XorSelf(last);
    } else {
      assert XorPattern(first, last - 1) == 0 && XorPattern(first, last) == last;
      XorZero(last);
    }
  }

  /** Extending a range that starts at an odd number by one element moves the pattern on by one entry. */
  lemma OddPatternStep(first: nat, last: nat)
    requires first < last && first % 2 == 1
    ensures XorPattern(first, last) == Xor(XorPattern(first, last - 1), last)
  {
    var d := last - first;
    if d % 4 == 1 {
      assert (last - 1 - first) % 4 == 0;
      assert XorPattern(first, last - 1) == first && XorPattern(first, last) == Xor(first, last);
    } else if d % 4 == 2 {
      OddPatternTwo(first, last);
    } else if d % 4 == 3 {
      assert (last - 1 - first) % 4 == 2;
      assert XorPattern(first, last - 1) == first - 1 && XorPattern(first, last) == Xor(first - 1, last);
    } else {
      OddPatternWrap(first, last);
    }
  }

  /** Two past an odd start, the pair first, first + 1 cancels down to one bit. */
  lemma OddPatternTwo(first: nat, last: nat)
    requires first < last && first % 2 == 1 && (last - first) % 4 == 2
    ensures XorPattern(first, last) == Xor(XorPattern(first, last - 1), last)
  {
    assert (last - 1 - first) % 4 == 1;
    assert XorPattern(first, last - 1) == Xor(first, last - 1) && XorPattern(first, last) == first - 1;
    XorEvenPair(first, last - 1);
    OddXorOne(first);
  }

  /** The odd-start pattern returns to its first entry every four elements. */
  lemma OddPatternWrap(first: nat, last: nat)
    requires first < last && first % 2 == 1 && (last - first) % 4 == 0
    ensures XorPattern(first, last) == Xor(XorPattern(first, last - 1), last)
  {
    assert (last - 1 - first) % 4 == 3;
    var x, e := first - 1, last - 1;
    assert x % 2 == 0 && e % 2 == 0 && e + 1 == last;
    assert XorPattern(first, last - 1) == Xor(x, e);
    assert XorPattern(first, last) == first;
    XorEvenPair(x, e);
    EvenXorOne(x);
  }

  /** The first ID of row `row` (the source's `first`). */
  function RowFirst(start: nat, length: nat, row: nat): (r: nat)
  {
    start + length * row
  }

  /** The last ID of row `row` that is checked (the source's `last`). */
  function RowLast(start: nat, length: nat, row: nat): (r: nat)
    requires row < length
  {
    RowFirst(start, length, row) + (length - row) - 1
  }

  /**
    Reference checksum: the XOR of every ID checked in rows 0 .. rows-1, each
    row taken ID by ID.
   */
  function RowsXor(start: nat, length: nat, rows: nat): (r: nat)
    requires rows <= length
  {
    if rows == 0 then 0
    else Xor(RowsXor(start, length, rows - 1),
             XorRange(RowFirst(start, length, rows - 1), RowLast(start, length, rows - 1)))
  }

  /** The whole queue's checksum as the guards and the loop of `solution` define it. */
  function Checksum(start: nat, length: nat): (r: nat)
  {
    RowsXor(start, length, length)
  }

  /**
    The source's `solution`: None when the guards fail, otherwise the XOR over
    all rows, each row's XOR taken in closed form.
   */
  method Solution(start: int, length: int) returns (r: Option<nat>)
    ensures start + length * length > MaxId || start < 0 || length < 0 <==> r == None
    ensures r != None ==> r == Some(Checksum(start, length))
    ensures r != None && length == 0 ==> r == Some(0)
  {
    if start + length * length > MaxId || start < 0 || length < 0 {
      return None;
    }
    var checksum: nat := 0;
    var row: nat := 0;
    while row < length
      invariant row <= length
      invariant checksum == RowsXor(start, length, row)
    {
      var first := start + length * row;
      var last := first + (length - row) - 1;
      checksum := Xor(checksum, XorOfSequence(first, last));
      row := row + 1;
    }
    return Some(checksum);
  }

  /** The single-range tests of the closed form. */
  lemma XorOfSequenceExamples()
    ensures XorPattern(17, 29) == 17
    ensures XorPattern(0, 16) == 16
    ensures XorPattern(12, 22) == 23
    ensures XorPattern(17, 32) == 48
  {
  }
}
