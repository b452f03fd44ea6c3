/**
 * Python's `|` and `^` on non-negative integers. Python integers are unbounded,
 * so the operators are defined bit by bit on `nat` rather than on a fixed-width
 * bit-vector: nothing here can overflow or truncate.
 */
module Bits {

  /** Bitwise exclusive or, `a ^ b`. */
  function Xor(a: nat, b: nat): nat
    decreases a + b
  {
    if a == 0 && b == 0 then 0
    else 2 * Xor(a / 2, b / 2) + (a % 2 + b % 2) % 2
  }

  /** Bitwise inclusive or, `a | b`. */
  function Or(a: nat, b: nat): nat
    decreases a + b
  {
    if a == 0 && b == 0 then 0
    else 2 * Or(a / 2, b / 2) + (if a % 2 == 1 || b % 2 == 1 then 1 else 0)
  }

  /** `a ^ b` is zero exactly when the operands are equal. */
  lemma {:induction false} XorZeroIff(a: nat, b: nat)
    ensures Xor(a, b) == 0 <==> a == b
    decreases a + b
  {
    if a == 0 && b == 0 {
    } else {
      XorZeroIff(a / 2, b / 2);
    }
  }

  /** `a | b` is zero exactly when both operands are zero. */
  lemma {:induction false} OrZeroIff(a: nat, b: nat)
    ensures Or(a, b) == 0 <==> a == 0 && b == 0
    decreases a + b
  {
    if a == 0 && b == 0 {
    } else {
      OrZeroIff(a / 2, b / 2);
    }
  }

  /** Or-ing never clears a bit: a nonzero accumulator stays nonzero. */
  lemma OrSticky(a: nat, b: nat)
    ensures a != 0 ==> Or(a, b) != 0
  {
    OrZeroIff(a, b);
  }
}
