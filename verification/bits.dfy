/**
  Python's bitwise operators on non-negative integers, defined bit by bit
  over unbounded naturals (the operands of the solutions are not bounded
  by any machine word).
 */
module Bits {

  function Pow2(k: nat): (r: nat)
    ensures r >= 1
  {
    if k == 0 then 1 else 2 * Pow2(k - 1)
  }

  /** Python `a & b` for a, b >= 0. */
  function And(a: nat, b: nat): (r: nat)
    decreases a + b
  {
    if a == 0 && b == 0 then 0 else 2 * And(a / 2, b / 2) + (if a % 2 == 1 && b % 2 == 1 then 1 else 0)
  }

  /** Python `a ^ b` for a, b >= 0. */
  function Xor(a: nat, b: nat): (r: nat)
    decreases a + b
  {
    if a == 0 && b == 0 then 0 else 2 * Xor(a / 2, b / 2) + XorBit(a % 2, b % 2)
  }

  /** Exclusive or of two single bits. */
  function XorBit(x: nat, y: nat): (r: nat)
  {
    if x == y then 0 else 1
  }

  /** One step of the bit-by-bit definition of `&`, valid for all operands. */
  lemma AndStep(a: nat, b: nat)
    ensures And(a, b) == 2 * And(a / 2, b / 2) + (if a % 2 == 1 && b % 2 == 1 then 1 else 0)
  {
  }

  lemma {:induction false} AndSelf(a: nat)
    ensures And(a, a) == a
    decreases a
  {
    if a != 0 {
      AndSelf(a / 2);
    }
  }

  lemma {:induction false} AndBoundedByLeft(a: nat, b: nat)
    ensures And(a, b) <= a
    decreases a + b
  {
    if a != 0 || b != 0 {
      AndBoundedByLeft(a / 2, b / 2);
    }
  }

  lemma {:induction false} XorZero(a: nat)
    ensures Xor(a, 0) == a && Xor(0, a) == a
    decreases a
  {
    if a != 0 {
      XorZero(a / 2);
    }
  }

  lemma {:induction false} XorSelf(a: nat)
    ensures Xor(a, a) == 0
    decreases a
  {
    if a != 0 {
      XorSelf(a / 2);
    }
  }

  lemma {:induction false} XorCommutative(a: nat, b: nat)
    ensures Xor(a, b) == Xor(b, a)
    decreases a + b
  {
    if a != 0 || b != 0 {
      XorCommutative(a / 2, b / 2);
    }
  }

  /** The lowest bit and the remaining bits of an exclusive or. */
  lemma XorHalves(a: nat, b: nat)
    ensures Xor(a, b) % 2 == XorBit(a % 2, b % 2)
    ensures Xor(a, b) / 2 == Xor(a / 2, b / 2)
  {
  }

  /** One step of the bit-by-bit definition, valid for all operands. */
  lemma XorStep(a: nat, b: nat)
    ensures Xor(a, b) == 2 * Xor(a / 2, b / 2) + XorBit(a % 2, b % 2)
  {
  }

  lemma {:induction false} XorAssociative(a: nat, b: nat, c: nat)
    ensures Xor(Xor(a, b), c) == Xor(a, Xor(b, c))
    decreases a + b + c
  {
    if a + b + c != 0 {
      XorAssociative(a / 2, b / 2, c / 2);
      var ab, bc := Xor(a, b), Xor(b, c);
      XorHalves(a, b);
      XorHalves(b, c);
      XorStep(ab, c);
      XorStep(a, bc);
    }
  }

  /** An even number and its successor differ only in the lowest bit. */
  lemma EvenXorSuccessor(x: nat)
    requires x % 2 == 0
    ensures Xor(x, x + 1) == 1
  {
    XorSelf(x / 2);
    assert (x + 1) / 2 == x / 2;
  }

  /** XOR-ing in an even number and then its successor flips only the lowest bit. */
  lemma XorEvenPair(x: nat, e: nat)
    requires e % 2 == 0
    ensures Xor(Xor(x, e), e + 1) == Xor(x, 1)
  {
    XorAssociative(x, e, e + 1);
    EvenXorSuccessor(e);
  }

  /** Flipping the lowest bit of an even number adds one. */
  lemma EvenXorOne(x: nat)
    requires x % 2 == 0
    ensures Xor(x, 1) == x + 1 && Xor(1, x) == x + 1
  {
    XorZero(x / 2);
    XorCommutative(x, 1);
  }

  /** Flipping the lowest bit of an odd number subtracts one. */
  lemma OddXorOne(x: nat)
    requires x % 2 == 1
    ensures Xor(x, 1) == x - 1
  {
    XorZero(x / 2);
  }
}
