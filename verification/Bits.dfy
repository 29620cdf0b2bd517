/** Bitwise operations of the C source on unbounded naturals, bit by bit. */
module Bits {
  import opened Words
  import opened Pow

  function Xor(a: nat, b: nat): nat
    decreases a + b
  {
    if a == 0 && b == 0 then 0
    else 2 * Xor(a / 2, b / 2) + (if a % 2 == b % 2 then 0 else 1)
  }

  function And(a: nat, b: nat): nat {
    if a == 0 || b == 0 then 0
    else 2 * And(a / 2, b / 2) + (if a % 2 == 1 && b % 2 == 1 then 1 else 0)
  }

  function Or(a: nat, b: nat): nat
    decreases a + b
  {
    if a == 0 && b == 0 then 0
    else 2 * Or(a / 2, b / 2) + (if a % 2 == 0 && b % 2 == 0 then 0 else 1)
  }

  /** The low k bits of x are zero. */
  predicate Aligned(x: nat, k: nat) {
    k == 0 || (x % 2 == 0 && Aligned(x / 2, k - 1))
  }

  /** Alignment is divisibility by a power of two. */
  lemma {:induction false} AlignedMod(x: nat, k: nat)
    ensures Aligned(x, k) <==> x % Pow2(k) == 0
  {
    if k > 0 {
      AlignedMod(x / 2, k - 1);
      ModHalf(x, Pow2(k - 1));
    }
  }

  lemma {:induction false} Pow2Strict(a: nat, b: nat)
    ensures Pow2(a) < Pow2(b) <==> a < b
    ensures Pow2(a) <= Pow2(b) <==> a <= b
  {
    if a < b {
      Pow2Monotone(a + 1, b);
    } else {
      Pow2Monotone(b, a);
      if b < a {
        Pow2Monotone(b + 1, a);
      }
    }
  }

  lemma {:induction false} AlignedDown(x: nat, k: nat, j: nat)
    requires Aligned(x, k) && j <= k
    ensures Aligned(x, j)
  {
    if j > 0 {
      AlignedDown(x / 2, k - 1, j - 1);
    }
  }

  lemma {:induction false} AlignedGap(x: nat, y: nat, k: nat)
    requires Aligned(x, k) && Aligned(y, k) && x < y
    ensures x + Pow2(k) <= y
  {
    if k > 0 {
      AlignedGap(x / 2, y / 2, k - 1);
    }
  }

  lemma {:induction false} AlignedAdd(x: nat, k: nat, j: nat)
    requires Aligned(x, k) && j >= k
    ensures Aligned(x + Pow2(j), k)
  {
    if k > 0 {
      assert (x + Pow2(j)) / 2 == x / 2 + Pow2(j - 1);
      AlignedAdd(x / 2, k - 1, j - 1);
    }
  }

  lemma {:induction false} XorZero(a: nat)
    ensures Xor(a, 0) == a
  {
    if a > 0 {
      XorZero(a / 2);
    }
  }

  /** Flipping bit i of an index aligned to it adds or subtracts 2^i, whichever keeps the pair aligned. */
  lemma {:induction false} XorBit(x: nat, i: nat)
    requires Aligned(x, i)
    ensures Aligned(x, i + 1) ==> Xor(x, Pow2(i)) == x + Pow2(i)
    ensures !Aligned(x, i + 1) ==> x >= Pow2(i) && Xor(x, Pow2(i)) == x - Pow2(i) && Aligned(x - Pow2(i), i + 1)
  {
    if i == 0 {
      XorZero(x / 2);
      assert Xor(x, 1) == 2 * Xor(x / 2, 0) + (if x % 2 == 1 then 0 else 1);
      assert Aligned(x, 1) <==> x % 2 == 0;
    } else {
      XorBit(x / 2, i - 1);
      assert Pow2(i) / 2 == Pow2(i - 1) && Pow2(i) % 2 == 0;
      if !Aligned(x, i + 1) {
        assert (x - Pow2(i)) / 2 == x / 2 - Pow2(i - 1);
      }
    }
  }

  // ---- leading zeros

  function BitLength(x: nat): nat {
    if x == 0 then 0 else 1 + BitLength(x / 2)
  }

  /** __builtin_clzll of a non-zero 64-bit value. */
  function Clz64(x: nat): int
    requires x > 0
  {
    64 - BitLength(x)
  }

  lemma {:induction false} BitLengthBounds(x: nat)
    requires x > 0
    ensures BitLength(x) > 0 && Pow2(BitLength(x) - 1) <= x < Pow2(BitLength(x))
  {
    if x > 1 {
      BitLengthBounds(x / 2);
    }
  }

  // ---- masks

  /** A mask of k ones keeps the remainder by 2^k. */
  lemma {:induction false} AndLow(a: nat, k: nat)
    ensures And(a, Pow2(k) - 1) == a % Pow2(k)
  {
    if k > 0 {
      var d := Pow2(k - 1);
      AndLow(a / 2, k - 1);
      ModHalf(a, d);
      AndStep(a, Pow2(k) - 1);
    }
  }

  lemma AndStep(a: nat, b: nat)
    ensures And(a, b) == 2 * And(a / 2, b / 2) + (if a % 2 == 1 && b % 2 == 1 then 1 else 0)
  {
  }

  lemma ModHalf(a: nat, d: nat)
    requires d > 0
    ensures a % (2 * d) == 2 * ((a / 2) % d) + a % 2
  {
    var q, r := (a / 2) / d, (a / 2) % d;
    assert a / 2 == q * d + r;
    assert a == q * (2 * d) + (2 * r + a % 2);
    ModUnique(a, 2 * d, q, 2 * r + a % 2);
  }

  function ShiftLeft(a: nat, k: nat): nat {
    if k == 0 then a else 2 * ShiftLeft(a, k - 1)
  }

  function ShiftRight(a: nat, k: nat): nat {
    if k == 0 then a else ShiftRight(a / 2, k - 1)
  }

  /** A mask shifted up by k bits. */
  lemma {:induction false} AndShift(a: nat, b: nat, k: nat)
    ensures And(a, ShiftLeft(b, k)) == ShiftLeft(And(ShiftRight(a, k), b), k)
  {
    if k > 0 {
      AndShift(a / 2, b, k - 1);
      AndStep(a, ShiftLeft(b, k));
    }
  }

  lemma {:induction false} ShiftLeftMul(a: nat, k: nat)
    ensures ShiftLeft(a, k) == a * Pow2(k)
  {
    if k > 0 {
      ShiftLeftMul(a, k - 1);
      assert 2 * (a * Pow2(k - 1)) == a * (2 * Pow2(k - 1));
    }
  }

  lemma {:induction false} ShiftRightDiv(a: nat, k: nat)
    ensures ShiftRight(a, k) == a / Pow2(k)
  {
    if k > 0 {
      ShiftRightDiv(a / 2, k - 1);
      DivDiv(a, Pow2(k - 1));
    }
  }

  lemma DivDiv(a: nat, d: nat)
    requires d > 0
    ensures (a / 2) / d == a / (2 * d)
  {
    var q, r := (a / 2) / d, (a / 2) % d;
    assert a / 2 == q * d + r;
    assert a == q * (2 * d) + (2 * r + a % 2);
    ModUnique(a, 2 * d, q, 2 * r + a % 2);
  }

  /** Setting bits below the alignment is addition. */
  lemma {:induction false} OrAligned(a: nat, b: nat, k: nat)
    requires Aligned(a, k) && b < Pow2(k)
    ensures Or(a, b) == a + b
  {
    if k > 0 {
      OrAligned(a / 2, b / 2, k - 1);
    } else {
      OrZero(a);
    }
  }

  lemma {:induction false} OrZero(a: nat)
    ensures Or(a, 0) == a
  {
    if a > 0 {
      OrZero(a / 2);
    }
  }

  lemma {:induction false} OrAssoc(a: nat, b: nat, c: nat)
    ensures Or(Or(a, b), c) == Or(a, Or(b, c))
    decreases a + b + c
  {
    if a > 0 || b > 0 || c > 0 {
      OrAssoc(a / 2, b / 2, c / 2);
      OrStep(a, b);
      OrStep(b, c);
      OrStep(Or(a, b), c);
      OrStep(a, Or(b, c));
    }
  }

  lemma OrStep(a: nat, b: nat)
    ensures Or(a, b) / 2 == Or(a / 2, b / 2)
    ensures Or(a, b) % 2 == if a % 2 == 0 && b % 2 == 0 then 0 else 1
  {
  }
}
