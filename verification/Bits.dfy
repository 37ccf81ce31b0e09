/** Powers of two and the bits of a natural number: row `t` of a truth table gives
    input `m` the value `Bit(t, m)`. */
module Bits {

  function Pow2(n: nat): (p: nat)
    ensures p >= 1
  {
    if n == 0 then 1 else 2 * Pow2(n - 1)
  }

  /** `(t >> m) & 1` */
  predicate Bit(t: nat, m: nat) {
    if m == 0 then t % 2 == 1 else Bit(t / 2, m - 1)
  }

  lemma Pow2Monotone(m: nat, n: nat)
    requires m <= n
    ensures Pow2(m) <= Pow2(n)
    decreases n
  {
    if m < n {
      Pow2Monotone(m, n - 1);
    }
  }

  lemma Pow2Add(m: nat, n: nat)
    ensures Pow2(m + n) == Pow2(m) * Pow2(n)
    decreases n
  {
    if n > 0 {
      Pow2Add(m, n - 1);
      calc {
        Pow2(m + n);
        2 * Pow2(m + (n - 1));
        2 * (Pow2(m) * Pow2(n - 1));
        Pow2(m) * (2 * Pow2(n - 1));
      }
    }
  }

  /** Bits at and above the width of a number are clear. */
  lemma {:induction false} HighBitClear(t: nat, m: nat)
    requires t < Pow2(m)
    ensures !Bit(t, m)
  {
    if m > 0 {
      HighBitClear(t / 2, m - 1);
    }
  }

  lemma ProductGap(m: nat, n: nat, d: nat)
    requires m < n
    ensures m * d + d <= n * d
  {
    assert (m + 1) * d <= n * d;
  }

  lemma QuotientUnique(x: nat, d: nat, q: nat, r: nat)
    requires r < d && x == q * d + r
    ensures x / d == q && x % d == r
  {
    var k := x / d;
    assert x == k * d + x % d;
    if k < q {
      ProductGap(k, q, d);
    } else if q < k {
      ProductGap(q, k, d);
    }
  }

  /** Adding a clear bit sets it and changes no other. */
  lemma {:induction false} SetClearBit(t: nat, m: nat, k: nat)
    requires !Bit(t, m)
    ensures Bit(t + Pow2(m), k) == (k == m || Bit(t, k))
    decreases m
  {
    if m > 0 {
      assert (t + Pow2(m)) / 2 == t / 2 + Pow2(m - 1) && (t + Pow2(m)) % 2 == t % 2;
      if k > 0 {
        SetClearBit(t / 2, m - 1, k - 1);
      }
    } else {
      assert (t + 1) / 2 == t / 2;
    }
  }

  /** The mask with the lowest `n` bits set. */
  function Below(n: nat): (mask: set<nat>)
    ensures forall b: nat :: b in mask <==> b < n
  {
    if n == 0 then {} else Below(n - 1) + {n - 1}
  }

  lemma BelowCount(n: nat)
    ensures |Below(n)| == n
  {
  }

  /** Counting the mask's bits tells whether all gates are in it. */
  lemma FullMask(mask: set<nat>, gates: nat)
    requires mask <= Below(gates)
    ensures |mask| <= gates && (|mask| == gates <==> mask == Below(gates))
  {
    BelowCount(gates);
    var missing := Below(gates) - mask;
    assert Below(gates) == mask + missing;
    assert |Below(gates)| == |mask| + |missing|;
  }
}
