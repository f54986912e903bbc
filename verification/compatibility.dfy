/**
  Level 4, "Distract the Trainers", part 1: when do two trainers, holding
  `a` and `b` bananas, thumb-wrestle forever?  The rule used is that
  (a + b) / gcd(a, b) is not a power of two.
 */
module Compatibility {
  import opened Bits

  /** `d` divides `n` exactly. */
  predicate Divides(d: nat, n: nat)
  {
    d > 0 && n % d == 0
  }

  /** Every multiple of `d` leaves remainder 0. */
  lemma MultipleMod(d: int, k: int)
    requires d > 0
    ensures (d * k) % d == 0
  {
    var n := d * k;
    var m := k - n / d;
    assert n == d * (n / d) + n % d;
    assert n % d == d * m;
  }

  /** A divisor of a positive number is no larger than it. */
  lemma DivisorBounded(d: nat, n: nat)
    requires Divides(d, n) && n > 0
    ensures d <= n
  {
  }

  /** A common divisor of `a` and `b` also divides `a % b`. */
  lemma DividesRemainder(d: nat, a: nat, b: nat)
    requires b > 0 && Divides(d, a) && Divides(d, b)
    ensures Divides(d, a % b)
  {
    var x, y := a / d, b / d;
    assert a == d * x && b == d * y;
    var q := a / b;
    assert a % b == a - b * q;
    assert a % b == d * (x - y * q);
    MultipleMod(d, x - y * q);
  }

  /** A common divisor of `b` and `a % b` also divides `a`. */
  lemma DividesFromRemainder(d: nat, a: nat, b: nat)
    requires b > 0 && Divides(d, b) && Divides(d, a % b)
    ensures Divides(d, a)
  {
    var y, z := b / d, (a % b) / d;
    assert b == d * y && a % b == d * z;
    var q := a / b;
    assert a == b * q + a % b;
    assert a == d * (y * q + z);
    MultipleMod(d, y * q + z);
  }

  /**
    The source's `gcd`: Euclid's loop `a, b = b, a % b` until `b` is 0.  Its
    result divides both inputs (when one is non-zero); `GcdGreatest` adds that
    every common divisor divides it.
   */
  function Gcd(a: nat, b: nat): (r: nat)
    ensures a > 0 || b > 0 ==> Divides(r, a) && Divides(r, b)
    decreases b
  {
    if b == 0 then
      a
    else
      var r := Gcd(b, a % b);
      DividesFromRemainder(r, a, b);
      r
  }

  lemma {:induction false} GcdGreatest(a: nat, b: nat, d: nat)
    requires Divides(d, a) && Divides(d, b)
    ensures Divides(d, Gcd(a, b))
    decreases b
  {
    if b > 0 {
      DividesRemainder(d, a, b);
      GcdGreatest(b, a % b, d);
    }
  }

  /** Two positive numbers that divide each other are equal. */
  lemma MutualDivisors(x: nat, y: nat)
    requires Divides(x, y) && Divides(y, x)
    ensures x == y
  {
    DivisorBounded(x, y);
    DivisorBounded(y, x);
  }

  lemma GcdSymmetric(a: nat, b: nat)
    requires a > 0 || b > 0
    ensures Gcd(a, b) == Gcd(b, a)
  {
    GcdGreatest(a, b, Gcd(b, a));
    GcdGreatest(b, a, Gcd(a, b));
    MutualDivisors(Gcd(a, b), Gcd(b, a));
  }

  /**
    And(n, n - 1) is zero exactly for the powers of two (for n >= 1):
    subtracting one clears the single set bit and sets the bits below it.
   */
  lemma {:induction false} PowerAndPredecessor(k: nat)
    ensures And(Pow2(k), Pow2(k) - 1) == 0
  {
    if k > 0 {
      PowerAndPredecessor(k - 1);
      var m := Pow2(k - 1);
      assert Pow2(k) / 2 == m && (Pow2(k) - 1) / 2 == m - 1;
    }
  }

  lemma {:induction false} AndPredecessorPower(n: nat) returns (k: nat)
    requires n >= 1 && And(n, n - 1) == 0
    ensures n == Pow2(k)
    decreases n
  {
    if n == 1 {
      k := 0;
    } else if n % 2 == 0 {
      assert n / 2 >= 1 && (n - 1) / 2 == n / 2 - 1;
      assert And(n, n - 1) == 2 * And(n / 2, n / 2 - 1);
      var j := AndPredecessorPower(n / 2);
      k := j + 1;
    } else {
      assert (n - 1) / 2 == n / 2 && n / 2 >= 1;
      AndSelf(n / 2);
      assert false;
    }
  }

  /** `n` is 2 to the power of some natural number. */
  ghost predicate PowerOfTwo(n: nat)
  {
    exists k: nat :: n == Pow2(k)
  }

  /** Both directions of the bit trick, for every natural number. */
  lemma PowerOfTwoTest(n: nat)
    ensures (n != 0 && And(n, n - 1) == 0) <==> PowerOfTwo(n)
  {
    if n != 0 && And(n, n - 1) == 0 {
      var k := AndPredecessorPower(n);
    }
    if exists k: nat :: n == Pow2(k) {
      var k: nat :| n == Pow2(k);
      PowerAndPredecessor(k);
    }
  }

  /** The source's `is_power_of_two`: `n & (n - 1) == 0 and n != 0`. */
  function IsPowerOfTwo(n: nat): (r: bool)
    ensures r <==> PowerOfTwo(n)
  {
    PowerOfTwoTest(n);
    n != 0 && And(n, n - 1) == 0
  }

  /**
    The source's `results_in_infinite_loop` for positive banana counts: the
    pair wrestles forever unless (a + b) / gcd(a, b) is a power of two.
   */
  function InfiniteLoop(a: nat, b: nat): (r: bool)
    requires a >= 1 && b >= 1
    ensures r <==> !PowerOfTwo((a + b) / Gcd(a, b))
  {
    !IsPowerOfTwo((a + b) / Gcd(a, b))
  }

  /** The relation does not depend on which trainer is named first. */
  lemma InfiniteLoopSymmetric(a: nat, b: nat)
    requires a >= 1 && b >= 1
    ensures InfiniteLoop(a, b) == InfiniteLoop(b, a)
  {
    GcdSymmetric(a, b);
  }

  /** Two trainers with equal banana counts never wrestle forever. */
  lemma EqualCountsStop(a: nat)
    requires a >= 1
    ensures !InfiniteLoop(a, a)
  {
    assert Gcd(a, a) == a by {
      assert a % a == 0 by { MultipleMod(a, 1); }
      assert Gcd(a, 0) == a;
    }
    assert (a + a) / a == 2;
    assert 2 == Pow2(1);
  }
}
