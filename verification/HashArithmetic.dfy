/**
 The integer arithmetic of uthash.h: masks and shifts by powers of two.
 */
module HashArithmetic {

  function Pow2(k: nat): (p: nat)
    ensures p >= 1
  {
    if k == 0 then 1 else 2 * Pow2(k - 1)
  }

  /** The C operator & on unsigned integers. */
  function And(x: nat, y: nat): nat
    decreases x
  {
    if x == 0 || y == 0 then 0 else 2 * And(x / 2, y / 2) + if x % 2 == 1 && y % 2 == 1 then 1 else 0
  }

  /** The C operator >> on unsigned integers. */
  function ShiftRight(x: nat, k: nat): nat {
    if k == 0 then x else ShiftRight(x / 2, k - 1)
  }

  lemma MulMonotone(a: nat, b: nat, m: nat)
    ensures a < b ==> a * m + m <= b * m
  {
    if a < b {
      var d: nat := b - a - 1;
      assert b * m == (a + 1 + d) * m == a * m + m + d * m;
    }
  }

  /** Division is determined by its remainder. */
  lemma Remainder(x: nat, m: nat, q: nat, r: nat)
    requires r < m && x == q * m + r
    ensures x % m == r && x / m == q
  {
    var q', r' := x / m, x % m;
    assert x == q' * m + r';
    MulMonotone(q, q', m);
    MulMonotone(q', q, m);
  }

  lemma Double(q: nat, m: nat)
    ensures q * (2 * m) == 2 * (q * m)
  {
  }

  /** Shift and mask split a number into high and low bits. */
  lemma {:induction false} SplitBits(x: nat, k: nat)
    ensures x == ShiftRight(x, k) * Pow2(k) + And(x, Pow2(k) - 1)
    ensures And(x, Pow2(k) - 1) < Pow2(k)
    decreases k
  {
    if k > 0 {
      var m := Pow2(k - 1);
      SplitBits(x / 2, k - 1);
      Double(ShiftRight(x, k), m);
      OddMask(x, m);
    }
  }

  lemma OddMask(x: nat, m: nat)
    requires m >= 1
    ensures And(x, 2 * m - 1) == 2 * And(x / 2, m - 1) + x % 2
  {
    assert (2 * m - 1) / 2 == m - 1 && (2 * m - 1) % 2 == 1;
  }

  /** HASH_TO_BKT: masking with a power of two less one is the remainder. */
  lemma MaskIsModulo(x: nat, k: nat)
    ensures And(x, Pow2(k) - 1) == x % Pow2(k)
    ensures ShiftRight(x, k) == x / Pow2(k)
  {
    hide And, ShiftRight, Pow2;
    SplitBits(x, k);
    Remainder(x, Pow2(k), ShiftRight(x, k), And(x, Pow2(k) - 1));
  }

  function CeilDiv(n: nat, d: nat): nat
    requires d > 0
  {
    (n + d - 1) / d
  }

  /** ideal_chain_maxlen as HASH_EXPAND_BUCKETS computes it from the log2 of the old bucket count. */
  function IdealChainMaxlen(numItems: nat, log2: nat): nat {
    ShiftRight(numItems, log2 + 1) + if And(numItems, Pow2(log2) * 2 - 1) != 0 then 1 else 0
  }

  lemma CeilOf(n: nat, d: nat, q: nat, r: nat)
    requires r < d && n == q * d + r
    ensures CeilDiv(n, d) == q + if r != 0 then 1 else 0
  {
    if r == 0 {
      Remainder(n + d - 1, d, q, d - 1);
    } else {
      assert (q + 1) * d == q * d + d;
      Remainder(n + d - 1, d, q + 1, r - 1);
    }
  }

  /** The shift and the mask compute the items per new bucket, rounded up. */
  lemma IdealIsCeiling(numItems: nat, log2: nat)
    ensures IdealChainMaxlen(numItems, log2) == CeilDiv(numItems, 2 * Pow2(log2))
  {
    assert Pow2(log2 + 1) == 2 * Pow2(log2);
    hide And, ShiftRight, Pow2, CeilDiv;
    SplitBits(numItems, log2 + 1);
    CeilOf(numItems, 2 * Pow2(log2), ShiftRight(numItems, log2 + 1), And(numItems, 2 * Pow2(log2) - 1));
  }
}
