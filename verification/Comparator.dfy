/** The comparison of outputs in Analyze: the words of the rendered columns, from number
    count - 1 down, where only the words that hold a kept row exist. It tells all columns
    apart exactly if no kept variable lies above a discarded one, counting from variable 5. */
module Comparator {
  import opened Bits
  import opened BitStream
  import opened Networks
  import opened Extraction
  import opened TableRows

  /** `$newtruth[$n]`: word number to word */
  type Rendered = map<nat, nat>

  /** What usort is told about two outputs; the words 0 to `n` - 1 count. */
  function CompareWords(x: Rendered, y: Rendered, n: nat): int {
    if n == 0 then 0
    else if n - 1 in x && n - 1 in y && x[n - 1] != y[n - 1] then y[n - 1] - x[n - 1]
    else CompareWords(x, y, n - 1)
  }

  /** The column of output `n` with the rows of discarded variables left out. */
  function KeptColumn(table: seq<set<nat>>, n: nat, off: set<nat>): (c: Column)
    ensures |c| == |table| && forall t :: 0 <= t < |c| ==> c[t] == (Picked(t, off, {}) && n in table[t])
  {
    seq(|table|, t requires 0 <= t < |table| => Picked(t, off, {}) && n in table[t])
  }

  /** The words that hold a kept row below `rows`. */
  function UsedWords(rows: nat, off: set<nat>): set<nat> {
    if rows == 0 then {}
    else UsedWords(rows - 1, off) + if Picked(rows - 1, off, {}) then {(rows - 1) / 32} else {}
  }

  lemma {:induction false} WordIsUsed(rows: nat, off: set<nat>, t: nat)
    requires t < rows && Picked(t, off, {})
    ensures t / 32 in UsedWords(rows, off)
  {
    if t < rows - 1 {
      WordIsUsed(rows - 1, off, t);
    }
  }

  lemma {:induction false} UsedWordHasRow(rows: nat, off: set<nat>, w: nat) returns (t: nat)
    requires w in UsedWords(rows, off)
    ensures t < rows && Picked(t, off, {}) && t / 32 == w
  {
    if w in UsedWords(rows - 1, off) {
      t := UsedWordHasRow(rows - 1, off, w);
    } else {
      t := rows - 1;
    }
  }

  function WordOf(c: Column, w: nat): nat {
    if 32 * w <= GroupEnd(w, |c|) <= |c| then Num(c[32 * w..GroupEnd(w, |c|)]) else 0
  }

  function Render(c: Column, off: set<nat>): Rendered {
    map w | w in UsedWords(|c|, off) :: WordOf(c, w)
  }

  // ---- Which words exist ----

  ghost predicate Contiguous(used: set<nat>) {
    forall w :: w in used ==> w < |used|
  }

  /** A variable from number 5 on that is discarded, below one that is kept. */
  ghost predicate Gap(inputs: nat, off: set<nat>) {
    exists d, m :: 5 <= d < m < inputs && d in off && m !in off
  }

  lemma BitOfHalf(t: nat, k: nat)
    ensures Bit(t / 2, k) == Bit(t, k + 1)
  {
  }

  lemma BitOfWord(t: nat, k: nat)
    ensures Bit(t / 32, k) == Bit(t, k + 5)
  {
    BitOfHalf(t, k + 4);
    BitOfHalf(t / 2, k + 3);
    BitOfHalf(t / 4, k + 2);
    BitOfHalf(t / 8, k + 1);
    BitOfHalf(t / 16, k);
    assert t / 2 / 2 == t / 4 && t / 4 / 2 == t / 8 && t / 8 / 2 == t / 16 && t / 16 / 2 == t / 32;
  }

  lemma BitOfWordStart(w: nat, k: nat)
    ensures Bit(32 * w, k) == (k >= 5 && Bit(w, k - 5))
  {
    if k >= 5 {
      BitOfWord(32 * w, k - 5);
    } else {
      LowBitsOfWordStart(w, k);
    }
  }

  lemma LowBitsOfWordStart(w: nat, k: nat)
    requires k < 5
    ensures !Bit(32 * w, k)
  {
    assert !Bit(2 * w, 0);
    BitOfHalf(4 * w, 0);
    BitOfHalf(8 * w, 1);
    BitOfHalf(16 * w, 2);
    BitOfHalf(32 * w, 3);
    BitOfHalf(8 * w, 0);
    BitOfHalf(16 * w, 1);
    BitOfHalf(32 * w, 2);
    BitOfHalf(16 * w, 0);
    BitOfHalf(32 * w, 1);
    BitOfHalf(32 * w, 0);
    assert !Bit(4 * w, 0) && !Bit(8 * w, 0) && !Bit(16 * w, 0) && !Bit(32 * w, 0);
  }

  lemma {:induction false} BelowTopBit(t: nat, m: nat, n: nat)
    requires t < Pow2(n) && m <= n && forall k :: m <= k < n ==> !Bit(t, k)
    ensures t < Pow2(m)
    decreases n
  {
    if m < n {
      TopBit(t, n - 1);
      BelowTopBit(t, m, n - 1);
    }
  }

  lemma UsedBelow(inputs: nat, off: set<nat>, w: nat, v: nat)
    requires !Gap(inputs, off) && w in UsedWords(Pow2(inputs), off) && v <= w
    ensures v in UsedWords(Pow2(inputs), off)
  {
    var t := UsedWordHasRow(Pow2(inputs), off, w);
    var u := 32 * v;
    forall m | m in off
      ensures !Bit(u, m)
    {
      BitOfWordStart(v, m);
      if m >= 5 && Bit(v, m - 5) {
        if m < inputs {
          forall k | m <= k < inputs
            ensures !Bit(t, k)
          {
            assert m == k || k in off;
          }
          BelowTopBit(t, m, inputs);
        } else {
          Pow2Monotone(inputs, m);
        }
        SetBitBound(u, m);
        assert false;
      }
    }
    WordIsUsed(Pow2(inputs), off, u);
  }

  lemma NoGapIsContiguous(inputs: nat, off: set<nat>)
    requires !Gap(inputs, off)
    ensures Contiguous(UsedWords(Pow2(inputs), off))
  {
    var used := UsedWords(Pow2(inputs), off);
    forall w | w in used
      ensures w < |used|
    {
      forall v | v in Below(w + 1)
        ensures v in used
      {
        UsedBelow(inputs, off, w, v);
      }
      BelowCount(w + 1);
      assert used == Below(w + 1) + (used - Below(w + 1));
    }
  }

  lemma ContiguousIsInitial(used: set<nat>, w: nat, v: nat)
    requires Contiguous(used) && w in used && v <= w
    ensures v in used
  {
    FullMask(used, |used|);
    assert used == Below(|used|);
  }

  lemma PowerOfDiscarded(inputs: nat, off: set<nat>, d: nat)
    requires d >= 5 && d in off
    ensures Pow2(d - 5) !in UsedWords(Pow2(inputs), off)
  {
    if Pow2(d - 5) in UsedWords(Pow2(inputs), off) {
      var t := UsedWordHasRow(Pow2(inputs), off, Pow2(d - 5));
      BitOfWord(t, d - 5);
      SingleBit(d - 5, {});
      assert false;
    }
  }

  /** With a gap, some word is not compared. */
  lemma GapIsNotContiguous(inputs: nat, off: set<nat>)
    requires Gap(inputs, off)
    ensures !Contiguous(UsedWords(Pow2(inputs), off))
  {
    var d, m :| 5 <= d < m < inputs && d in off && m !in off;
    PowerIsUsed(inputs, off, m);
    PowerOfDiscarded(inputs, off, d);
    Pow2Monotone(d - 5, m - 5);
    if Contiguous(UsedWords(Pow2(inputs), off)) {
      ContiguousIsInitial(UsedWords(Pow2(inputs), off), Pow2(m - 5), Pow2(d - 5));
      assert false;
    }
  }

  lemma PowerIsUsed(inputs: nat, off: set<nat>, m: nat)
    requires 5 <= m < inputs && m !in off
    ensures Pow2(m - 5) in UsedWords(Pow2(inputs), off)
  {
    SingleBit(m, off);
    Pow2Monotone(m + 1, inputs);
    WordOfPower(m);
    WordIsUsed(Pow2(inputs), off, Pow2(m));
  }

  lemma SingleBit(m: nat, off: set<nat>)
    requires m !in off
    ensures Picked(Pow2(m), off, {}) && Bit(Pow2(m), m)
  {
    forall k
      ensures Bit(Pow2(m), k) == (k == m)
    {
      HighBitClear(0, k);
      HighBitClear(0, m);
      SetClearBit(0, m, k);
    }
  }

  lemma WordOfPower(m: nat)
    requires m >= 5
    ensures Pow2(m) / 32 == Pow2(m - 5)
  {
    assert Pow2(m) == 2 * Pow2(m - 1) == 4 * Pow2(m - 2) == 8 * Pow2(m - 3) == 16 * Pow2(m - 4) == 32 * Pow2(m - 5);
  }

  // ---- Equal words ----

  lemma {:induction false} EqualWords(x: Rendered, y: Rendered, n: nat, w: nat)
    requires CompareWords(x, y, n) == 0 && w < n && w in x && w in y
    ensures x[w] == y[w]
  {
    if w < n - 1 {
      EqualWords(x, y, n - 1, w);
    }
  }

  lemma {:induction false} WordsCompareEqual(x: Rendered, y: Rendered, n: nat)
    requires forall w :: 0 <= w < n && w in x && w in y ==> x[w] == y[w]
    ensures CompareWords(x, y, n) == 0
  {
    if n > 0 {
      WordsCompareEqual(x, y, n - 1);
    }
  }

  lemma RowInWord(c: Column, d: Column, t: nat)
    requires |c| == |d| && t < |c| && WordOf(c, t / 32) == WordOf(d, t / 32)
    ensures c[t] == d[t]
  {
    var w := t / 32;
    var end := GroupEnd(w, |c|);
    BitsOfNum(c[32 * w..end]);
    BitsOfNum(d[32 * w..end]);
    assert c[32 * w..end][t - 32 * w] == c[t] && d[32 * w..end][t - 32 * w] == d[t];
  }

  /** Without a gap, outputs that compare equal are equal in all kept rows. */
  lemma EqualMeansEqual(c: Column, d: Column, inputs: nat, off: set<nat>, t: nat)
    requires |c| == |d| == Pow2(inputs) && !Gap(inputs, off) && t < |c| && Picked(t, off, {})
    requires CompareWords(Render(c, off), Render(d, off), |UsedWords(Pow2(inputs), off)|) == 0
    ensures c[t] == d[t]
  {
    NoGapIsContiguous(inputs, off);
    var used := UsedWords(Pow2(inputs), off);
    WordIsUsed(|c|, off, t);
    EqualWords(Render(c, off), Render(d, off), |used|, t / 32);
    RowInWord(c, d, t);
  }

  /** With a gap there is a kept row whose word is never looked at. */
  lemma UnseenRow(inputs: nat, off: set<nat>) returns (t: nat)
    requires Gap(inputs, off)
    ensures t < Pow2(inputs) && Picked(t, off, {}) && t / 32 >= |UsedWords(Pow2(inputs), off)|
    ensures t > 0
  {
    GapIsNotContiguous(inputs, off);
    var used := UsedWords(Pow2(inputs), off);
    var w :| w in used && w >= |used|;
    t := UsedWordHasRow(Pow2(inputs), off, w);
    assert |used| > 0;
  }

  lemma WordsApart(c: Column, d: Column, w: nat)
    requires |c| == |d| && forall t :: 0 <= t < |c| && t / 32 == w ==> c[t] == d[t]
    ensures WordOf(c, w) == WordOf(d, w)
  {
    var end := GroupEnd(w, |c|);
    if 32 * w <= end <= |c| {
      assert c[32 * w..end] == d[32 * w..end];
    }
  }

  /** Columns that only differ in an unseen row compare equal. */
  lemma UnseenDifference(c: Column, d: Column, inputs: nat, off: set<nat>, t: nat)
    requires |c| == |d| == Pow2(inputs) && t < |c| && t / 32 >= |UsedWords(Pow2(inputs), off)|
    requires forall u :: 0 <= u < |c| && u != t ==> c[u] == d[u]
    ensures CompareWords(Render(c, off), Render(d, off), |UsedWords(Pow2(inputs), off)|) == 0
  {
    var n := |UsedWords(Pow2(inputs), off)|;
    forall w | 0 <= w < n && w in Render(c, off) && w in Render(d, off)
      ensures Render(c, off)[w] == Render(d, off)[w]
    {
      WordsApart(c, d, w);
    }
    WordsCompareEqual(Render(c, off), Render(d, off), n);
  }

  /** Columns that compare equal are equal where they are kept. */
  ghost predicate TellsApart(inputs: nat, off: set<nat>) {
    forall c: Column, d: Column :: |c| == |d| == Pow2(inputs) && Confused(c, d, inputs, off) ==> SameKept(c, d, off)
  }

  ghost predicate Confused(c: Column, d: Column, inputs: nat, off: set<nat>) {
    CompareWords(Render(c, off), Render(d, off), |UsedWords(Pow2(inputs), off)|) == 0
  }

  ghost predicate SameKept(c: Column, d: Column, off: set<nat>)
    requires |c| == |d|
  {
    forall t :: 0 <= t < |c| && Picked(t, off, {}) ==> c[t] == d[t]
  }

  lemma NoGapTellsApart(inputs: nat, off: set<nat>)
    requires !Gap(inputs, off)
    ensures TellsApart(inputs, off)
  {
    forall c: Column, d: Column | |c| == |d| == Pow2(inputs) && Confused(c, d, inputs, off)
      ensures SameKept(c, d, off)
    {
      forall t | 0 <= t < |c| && Picked(t, off, {})
        ensures c[t] == d[t]
      {
        EqualMeansEqual(c, d, inputs, off, t);
      }
    }
  }

  /** The comparison is exact for a set of discarded variables exactly if it has no gap. */
  lemma ComparatorIsExact(inputs: nat, off: set<nat>)
    ensures TellsApart(inputs, off) <==> !Gap(inputs, off)
  {
    if Gap(inputs, off) {
      var t := UnseenRow(inputs, off);
      var n := Pow2(inputs);
      var c: Column, d: Column := Zeros(n), seq(n, u => u == t);
      UnseenDifference(c, d, inputs, off, t);
      assert Confused(c, d, inputs, off) && c[t] != d[t];
    } else {
      NoGapTellsApart(inputs, off);
    }
  }
}
