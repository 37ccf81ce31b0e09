/** Rows of a truth table picked by their input bits, and where a row stands among them. */
module TableRows {
  import opened Bits
  import opened BitStream

  /** The inputs in `off` are 0 and the inputs in `on` are 1. */
  predicate Picked(t: nat, off: set<nat>, on: set<nat>) {
    (forall m :: m in off ==> !Bit(t, m)) && (forall m :: m in on ==> Bit(t, m))
  }

  /** The picked rows below `n`, in order. */
  function Rows(n: nat, off: set<nat>, on: set<nat>): seq<nat> {
    if n == 0 then []
    else if Picked(n - 1, off, on) then Rows(n - 1, off, on) + [n - 1]
    else Rows(n - 1, off, on)
  }

  function Shifted(rows: seq<nat>, d: nat): (s: seq<nat>)
    ensures |s| == |rows| && forall i :: 0 <= i < |s| ==> s[i] == rows[i] + d
  {
    seq(|rows|, i requires 0 <= i < |rows| => rows[i] + d)
  }

  /** The bits of the upper half of a block. */
  lemma UpperHalf(m: nat, t: nat, k: nat)
    requires t < Pow2(m)
    ensures Bit(Pow2(m) + t, k) == (k == m || Bit(t, k))
  {
    HighBitClear(t, m);
    SetClearBit(t, m, k);
  }

  /** An upper half repeats the lower one. */
  lemma {:induction false} RowsDouble(m: nat, s: nat, off: set<nat>, on: set<nat>)
    requires s <= Pow2(m)
    ensures Rows(Pow2(m) + s, off, on)
      == Rows(Pow2(m), off, on) + if m in off then [] else Shifted(Rows(s, off, on - {m}), Pow2(m))
    decreases s
  {
    if s > 0 {
      RowsDouble(m, s - 1, off, on);
      PickedDouble(m, s - 1, off, on);
      var low := Rows(Pow2(m), off, on);
      var high := Shifted(Rows(s - 1, off, on - {m}), Pow2(m));
      Reassociate(low, high, [Pow2(m) + (s - 1)]);
      if Picked(s - 1, off, on - {m}) {
        ShiftedSum(Rows(s - 1, off, on - {m}), [s - 1], Pow2(m));
        assert Shifted([s - 1], Pow2(m)) == [Pow2(m) + (s - 1)];
      }
    }
  }

  lemma PickedDouble(m: nat, t: nat, off: set<nat>, on: set<nat>)
    requires t < Pow2(m)
    ensures Picked(Pow2(m) + t, off, on) <==> m !in off && Picked(t, off, on - {m})
  {
    var u := Pow2(m) + t;
    UpperHalf(m, t, m);
    if Picked(u, off, on) {
      forall k | k in off
        ensures !Bit(t, k)
      {
        UpperHalf(m, t, k);
      }
      forall k | k in on - {m}
        ensures Bit(t, k)
      {
        UpperHalf(m, t, k);
      }
    }
    if m !in off && Picked(t, off, on - {m}) {
      forall k | k in off
        ensures !Bit(u, k)
      {
        UpperHalf(m, t, k);
      }
      forall k | k in on
        ensures Bit(u, k)
      {
        UpperHalf(m, t, k);
      }
    }
  }

  lemma {:induction false} RowsWithoutTop(m: nat, n: nat, off: set<nat>, on: set<nat>)
    requires n <= Pow2(m)
    ensures Rows(n, off + {m}, on) == Rows(n, off, on)
    ensures m in on ==> Rows(n, off, on) == []
    decreases n
  {
    if n > 0 {
      RowsWithoutTop(m, n - 1, off, on);
      HighBitClear(n - 1, m);
    }
  }

  lemma ShiftedTwice(rows: seq<nat>, d: nat, e: nat)
    ensures Shifted(Shifted(rows, d), e) == Shifted(Shifted(rows, e), d)
  {
  }

  lemma ShiftedSum(a: seq<nat>, b: seq<nat>, d: nat)
    ensures Shifted(a + b, d) == Shifted(a, d) + Shifted(b, d)
  {
  }

  /** The rows with input `m` on are those with input `m` off, moved up. */
  lemma {:induction false} RowsPair(inputs: nat, m: nat)
    requires m < inputs
    ensures Rows(Pow2(inputs), {}, {m}) == Shifted(Rows(Pow2(inputs), {m}, {}), Pow2(m))
    decreases inputs
  {
    var top := inputs - 1;
    RowsDouble(top, Pow2(top), {}, {m});
    RowsDouble(top, Pow2(top), {m}, {});
    assert Pow2(inputs) == Pow2(top) + Pow2(top);
    if m == top {
      LowestPair(m);
    } else {
      var low, pair := Rows(Pow2(top), {m}, {}), Rows(Pow2(top), {}, {m});
      RowsPair(top, m);
      assert {m} - {top} == {m} && {} - {top} == {};
      ShiftedSum(low, Shifted(low, Pow2(top)), Pow2(m));
      ShiftedTwice(low, Pow2(m), Pow2(top));
    }
  }

  lemma LowestPair(m: nat)
    ensures Rows(Pow2(m) + Pow2(m), {}, {m}) == Shifted(Rows(Pow2(m) + Pow2(m), {m}, {}), Pow2(m))
  {
    var low := Rows(Pow2(m), {}, {});
    RowsDouble(m, Pow2(m), {}, {m});
    RowsDouble(m, Pow2(m), {m}, {});
    RowsWithoutTop(m, Pow2(m), {}, {m});
    RowsWithoutTop(m, Pow2(m), {}, {});
    OneHalf(m, low);
  }

  lemma OneHalf(m: nat, low: seq<nat>)
    ensures {m} - {m} == {} && {} + {m} == {m}
    ensures [] + Shifted(low, Pow2(m)) == Shifted(low, Pow2(m)) && low + [] == low
  {
  }

  // ---- Dropping inputs ----

  /** How many inputs below `m` are kept. */
  function Rank(m: nat, off: set<nat>): nat {
    if m == 0 then 0 else Rank(m - 1, off) + if m - 1 in off then 0 else 1
  }

  /** Row `t` with the dropped inputs, and all from `m` on, set to 0. */
  function Cleared(t: nat, m: nat, off: set<nat>): nat {
    if m == 0 then 0
    else Cleared(t, m - 1, off) + if m - 1 !in off && Bit(t, m - 1) then Pow2(m - 1) else 0
  }

  /** The row of the compressed table: kept input number `r` is bit `r`. */
  function Position(t: nat, m: nat, off: set<nat>): nat {
    if m == 0 then 0
    else Position(t, m - 1, off) + if m - 1 !in off && Bit(t, m - 1) then Pow2(Rank(m - 1, off)) else 0
  }

  lemma {:induction false} RankMonotone(m: nat, n: nat, off: set<nat>)
    requires m <= n
    ensures Rank(m, off) <= Rank(n, off)
    ensures m < n && m !in off ==> Rank(m, off) < Rank(n, off)
    decreases n
  {
    if m < n {
      RankMonotone(m, n - 1, off);
    }
  }

  lemma {:induction false} ClearedBits(t: nat, m: nat, off: set<nat>, k: nat)
    ensures Cleared(t, m, off) < Pow2(m)
    ensures Bit(Cleared(t, m, off), k) == (k < m && k !in off && Bit(t, k))
    decreases m
  {
    if m == 0 {
      HighBitClear(0, k);
    } else {
      ClearedBits(t, m - 1, off, k);
      if m - 1 !in off && Bit(t, m - 1) {
        UpperHalf(m - 1, Cleared(t, m - 1, off), k);
      }
    }
  }

  /** Bit `Rank(k)` of the compressed row is the value of input `k`. */
  lemma {:induction false} PositionBits(t: nat, m: nat, off: set<nat>, k: nat)
    requires k < m && k !in off
    ensures Bit(Position(t, m, off), Rank(k, off)) == Bit(t, k)
    decreases m
  {
    PositionBound(t, m - 1, off);
    var below := Position(t, m - 1, off);
    if k < m - 1 {
      PositionBits(t, m - 1, off, k);
      RankMonotone(k, m - 1, off);
      UpperHalf(Rank(m - 1, off), below, Rank(k, off));
    } else {
      HighBitClear(below, Rank(k, off));
      UpperHalf(Rank(k, off), below, Rank(k, off));
    }
  }

  lemma {:induction false} PositionBound(t: nat, m: nat, off: set<nat>)
    ensures Position(t, m, off) < Pow2(Rank(m, off))
    decreases m
  {
    if m > 0 {
      PositionBound(t, m - 1, off);
    }
  }

  /** There are 2^kept rows left, and row `t` is represented at its position. */
  lemma {:induction false} RowAtPosition(t: nat, m: nat, off: set<nat>)
    ensures |Rows(Pow2(m), off, {})| == Pow2(Rank(m, off))
    ensures Position(t, m, off) < Pow2(Rank(m, off))
    ensures Rows(Pow2(m), off, {})[Position(t, m, off)] == Cleared(t, m, off)
    decreases m
  {
    PositionBound(t, m, off);
    if m == 0 {
      NothingPicked(off);
    } else {
      RowAtPosition(t, m - 1, off);
      RowsDouble(m - 1, Pow2(m - 1), off, {});
      assert {} - {m - 1} == {};
      var low := Rows(Pow2(m - 1), off, {});
      assert Pow2(m) == Pow2(m - 1) + Pow2(m - 1);
      if m - 1 in off {
        assert Rows(Pow2(m), off, {}) == low + [];
      } else {
        assert Rows(Pow2(m), off, {}) == low + Shifted(low, Pow2(m - 1));
      }
    }
  }

  lemma NothingPicked(off: set<nat>)
    ensures Rows(1, off, {}) == [0]
  {
    forall k
      ensures !Bit(0, k)
    {
      HighBitClear(0, k);
    }
    assert Rows(0, off, {}) == [];
  }

  // ---- Numbers and their bits ----

  lemma {:induction false} TopBit(t: nat, m: nat)
    requires t < Pow2(m + 1)
    ensures Bit(t, m) <==> t >= Pow2(m)
  {
    if m > 0 {
      TopBit(t / 2, m - 1);
    }
  }

  lemma {:induction false} SetBitBound(t: nat, m: nat)
    requires Bit(t, m)
    ensures t >= Pow2(m)
  {
    if m > 0 {
      SetBitBound(t / 2, m - 1);
    }
  }

  /** Taking a set bit away. */
  lemma TakeBit(t: nat, m: nat, k: nat)
    requires Bit(t, m)
    ensures t >= Pow2(m) && Bit(t - Pow2(m), k) == (k != m && Bit(t, k))
    decreases m
  {
    SetBitBound(t, m);
    if m > 0 {
      assert (t - Pow2(m)) / 2 == t / 2 - Pow2(m - 1) && (t - Pow2(m)) % 2 == t % 2;
      if k > 0 {
        TakeBit(t / 2, m - 1, k - 1);
      }
    } else {
      assert (t - 1) / 2 == t / 2;
    }
  }

  /** The kept bits decide about the cleared row and its position. */
  lemma {:induction false} KeptBitsDecide(t: nat, u: nat, m: nat, off: set<nat>)
    requires forall k :: 0 <= k < m && k !in off ==> Bit(t, k) == Bit(u, k)
    ensures Cleared(t, m, off) == Cleared(u, m, off) && Position(t, m, off) == Position(u, m, off)
  {
    if m > 0 {
      KeptBitsDecide(t, u, m - 1, off);
    }
  }

  lemma {:induction false} NothingToClear(t: nat, m: nat, off: set<nat>)
    requires t < Pow2(m) && Picked(t, off, {})
    ensures Cleared(t, m, off) == t
  {
    if m > 0 {
      TopBit(t, m - 1);
      if Bit(t, m - 1) {
        var u := t - Pow2(m - 1);
        forall k
          ensures Bit(u, k) == (k != m - 1 && Bit(t, k))
        {
          TakeBit(t, m - 1, k);
        }
        NothingToClear(u, m - 1, off);
        KeptBitsDecide(t, u, m - 1, off);
      } else {
        NothingToClear(t, m - 1, off);
      }
    }
  }

  lemma ClearedIsPicked(t: nat, m: nat, off: set<nat>)
    ensures Cleared(t, m, off) < Pow2(m) && Picked(Cleared(t, m, off), off, {})
  {
    ClearedBits(t, m, off, 0);
    forall k | k in off
      ensures !Bit(Cleared(t, m, off), k)
    {
      ClearedBits(t, m, off, k);
    }
  }

  lemma {:induction false} RowsArePicked(n: nat, off: set<nat>, on: set<nat>, i: nat)
    requires i < |Rows(n, off, on)|
    ensures Rows(n, off, on)[i] < n && Picked(Rows(n, off, on)[i], off, on)
  {
    if i < |Rows(n - 1, off, on)| {
      RowsArePicked(n - 1, off, on, i);
    }
  }

  lemma {:induction false} PickedIsListed(n: nat, off: set<nat>, on: set<nat>, t: nat) returns (i: nat)
    requires t < n && Picked(t, off, on)
    ensures i < |Rows(n, off, on)| && Rows(n, off, on)[i] == t
  {
    if t < n - 1 {
      i := PickedIsListed(n - 1, off, on, t);
    } else {
      i := |Rows(n - 1, off, on)|;
    }
  }
}
