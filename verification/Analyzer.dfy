/** The loops of Analyze in backend/parser.php, one method for each of its steps. */
module Analyzer {
  import opened Bits
  import opened BitStream
  import opened Networks
  import opened Extraction
  import opened TableRows
  import opened Comparator
  import opened Analysis
  import opened Wrappers
  import opened Lists

  // ---- Steps 1 and 2 ----

  /** In one of the first `i` rows output `n` has the value `v`. */
  ghost predicate Takes(table: TruthTable, i: nat, n: nat, v: bool)
    requires i <= |table|
  {
    exists t :: 0 <= t < i && (n in table[t]) == v
  }

  /** In one of the first `i` rows output `n` differs from input `m`. */
  ghost predicate Differs(table: TruthTable, i: nat, n: nat, m: nat)
    requires i <= |table|
  {
    exists t :: 0 <= t < i && (n in table[t]) != Bit(t, m)
  }

  lemma TakesMore(table: TruthTable, i: nat, n: nat, v: bool)
    requires i < |table|
    ensures Takes(table, i + 1, n, v) <==> Takes(table, i, n, v) || (n in table[i]) == v
  {
    if t :| 0 <= t < i && (n in table[t]) == v {
      assert Takes(table, i + 1, n, v);
    }
    if (n in table[i]) == v {
      assert Takes(table, i + 1, n, v);
    }
  }

  lemma DiffersMore(table: TruthTable, i: nat, n: nat, m: nat)
    requires i < |table|
    ensures Differs(table, i + 1, n, m) <==> Differs(table, i, n, m) || (n in table[i]) != Bit(i, m)
  {
    if t :| 0 <= t < i && (n in table[t]) != Bit(t, m) {
      assert Differs(table, i + 1, n, m);
    }
    if (n in table[i]) != Bit(i, m) {
      assert Differs(table, i + 1, n, m);
    }
  }

  /** `$value ^ ~((($index >> $m) & 1) - 1)`, for the outputs */
  function DifferenceMask(value: set<nat>, on: bool, outputs: nat): set<nat> {
    if on then Below(outputs) - value else value
  }

  ghost predicate Seen(table: TruthTable, i: nat, outputs: nat, hasZero: set<nat>, hasOne: set<nat>)
    requires i <= |table|
  {
    forall n :: 0 <= n < outputs ==> (n in hasZero <==> Takes(table, i, n, false)) && (n in hasOne <==> Takes(table, i, n, true))
  }

  ghost predicate DifferencesSeen(table: TruthTable, i: nat, outputs: nat, differing: set<nat>, m: nat)
    requires i <= |table|
  {
    forall n :: 0 <= n < outputs ==> (n in differing <==> Differs(table, i, n, m))
  }

  method ScanRows(table: TruthTable, inputs: nat, outputs: nat)
    returns (hasZero: set<nat>, hasOne: set<nat>, differing: seq<set<nat>>)
    ensures Seen(table, |table|, outputs, hasZero, hasOne)
    ensures |differing| == inputs && forall m :: 0 <= m < inputs ==> DifferencesSeen(table, |table|, outputs, differing[m], m)
  {
    hasZero, hasOne, differing := {}, {}, seq(inputs, m => {});
    var index := 0;
    while index < |table|
      invariant index <= |table| && Seen(table, index, outputs, hasZero, hasOne)
      invariant |differing| == inputs && forall m :: 0 <= m < inputs ==> DifferencesSeen(table, index, outputs, differing[m], m)
    {
      var value := table[index];
      forall n | 0 <= n < outputs
        ensures forall v :: Takes(table, index + 1, n, v) <==> Takes(table, index, n, v) || (n in value) == v
      {
        TakesMore(table, index, n, true);
        TakesMore(table, index, n, false);
      }
      hasOne := hasOne + value;
      hasZero := hasZero + (Below(outputs) - value);
      differing := ScanInputs(table, inputs, outputs, index, differing);
      index := index + 1;
    }
  }

  method ScanInputs(table: TruthTable, inputs: nat, outputs: nat, index: nat, before: seq<set<nat>>)
    returns (differing: seq<set<nat>>)
    requires index < |table|
    requires |before| == inputs && forall m :: 0 <= m < inputs ==> DifferencesSeen(table, index, outputs, before[m], m)
    ensures |differing| == inputs && forall m :: 0 <= m < inputs ==> DifferencesSeen(table, index + 1, outputs, differing[m], m)
  {
    differing := before;
    var m := 0;
    while m < inputs
      invariant m <= inputs && |differing| == inputs
      invariant forall k :: 0 <= k < m ==> DifferencesSeen(table, index + 1, outputs, differing[k], k)
      invariant forall k :: m <= k < inputs ==> DifferencesSeen(table, index, outputs, differing[k], k)
    {
      ghost var old_ := differing[m];
      differing := differing[m := differing[m] + DifferenceMask(table[index], Bit(index, m), outputs)];
      forall n | 0 <= n < outputs
        ensures n in differing[m] <==> Differs(table, index + 1, n, m)
      {
        DiffersMore(table, index, n, m);
      }
      m := m + 1;
    }
  }

  lemma ScanTells(table: TruthTable, outputs: nat, hasZero: set<nat>, hasOne: set<nat>, n: nat)
    requires Seen(table, |table|, outputs, hasZero, hasOne) && n < outputs && table != []
    ensures !(n in hasZero && n in hasOne) <==> Constant(MaskColumn(table, n))
    ensures Constant(MaskColumn(table, n)) ==> (n in hasOne) == MaskColumn(table, n)[0]
  {
    var c := MaskColumn(table, n);
    if Constant(c) {
      assert forall t :: 0 <= t < |c| ==> c[t] == c[0];
      assert (n in table[0]) == c[0];
      assert Takes(table, |table|, n, c[0]) && !Takes(table, |table|, n, !c[0]);
    } else {
      var i, j :| 0 <= i < |c| && 0 <= j < |c| && c[i] != c[j];
      assert (n in table[i]) == c[i] && (n in table[j]) == c[j];
      assert Takes(table, |table|, n, c[i]) && Takes(table, |table|, n, c[j]);
    }
  }

  lemma DifferencesTell(table: TruthTable, outputs: nat, differing: set<nat>, n: nat, m: nat)
    requires DifferencesSeen(table, |table|, outputs, differing, m) && n < outputs
    ensures n !in differing <==> CopyOf(MaskColumn(table, n), m)
  {
    var c := MaskColumn(table, n);
    if !CopyOf(c, m) {
      var t :| 0 <= t < |c| && c[t] != Bit(t, m);
      assert Differs(table, |table|, n, m);
    }
  }

  method FindTrivial(table: TruthTable, inputs: nat, outputs: nat) returns (mapping: map<nat, Target>)
    requires table != []
    ensures mapping == TrivialTargets(table, inputs, outputs)
  {
    var hasZero, hasOne, differing := ScanRows(table, inputs, outputs);
    mapping := map[];
    var n := 0;
    while n < outputs
      invariant n <= outputs && mapping == TrivialTargets(table, inputs, n)
    {
      var target := None;
      if !(n in hasOne && n in hasZero) {
        target := Some(Fixed(n in hasOne));
      }
      var copy := FindCopy(table, inputs, outputs, differing, n);
      if copy.Some? {
        target := Some(Copied(copy.value));
      }
      ScanTells(table, outputs, hasZero, hasOne, n);
      assert target == TrivialTarget(MaskColumn(table, n), inputs);
      TrivialOneMore(table, inputs, n);
      if target.Some? {
        mapping := mapping[n := target.value];
      }
      n := n + 1;
    }
  }

  lemma TrivialOneMore(table: TruthTable, inputs: nat, n: nat)
    ensures var target := TrivialTarget(MaskColumn(table, n), inputs); var before := TrivialTargets(table, inputs, n);
      TrivialTargets(table, inputs, n + 1) == if target.Some? then before[n := target.value] else before
  {
  }

  method FindCopy(table: TruthTable, inputs: nat, outputs: nat, differing: seq<set<nat>>, n: nat)
    returns (copy: Option<nat>)
    requires n < outputs && |differing| == inputs
    requires forall m :: 0 <= m < inputs ==> DifferencesSeen(table, |table|, outputs, differing[m], m)
    ensures copy == FirstCopy(MaskColumn(table, n), 0, inputs)
  {
    var m := 0;
    while m < inputs
      invariant m <= inputs && FirstCopy(MaskColumn(table, n), 0, inputs) == FirstCopy(MaskColumn(table, n), m, inputs)
    {
      DifferencesTell(table, outputs, differing[m], n, m);
      if n !in differing[m] {
        return Some(m);
      }
      m := m + 1;
    }
    copy := None;
  }

  // ---- Step 3 ----

  /** The meaningful outputs of the given rows. */
  function Values(table: TruthTable, discard: set<nat>, rows: seq<nat>): (values: seq<set<nat>>)
    requires forall i :: 0 <= i < |rows| ==> rows[i] < |table|
    ensures |values| == |rows| && forall i :: 0 <= i < |rows| ==> values[i] == table[rows[i]] - discard
  {
    seq(|rows|, i requires 0 <= i < |rows| => table[rows[i]] - discard)
  }

  lemma {:induction false} RowsBelow(n: nat, off: set<nat>, on: set<nat>)
    ensures forall i :: 0 <= i < |Rows(n, off, on)| ==> Rows(n, off, on)[i] < n
  {
    if n > 0 {
      RowsBelow(n - 1, off, on);
    }
  }

  /** `has_one` and `has_zero` after `i` rows */
  ghost predicate Listed(table: TruthTable, discard: set<nat>, i: nat, m: nat, zeros: seq<set<nat>>,
                         ones: seq<set<nat>>)
    requires i <= |table|
  {
    RowsBelow(i, {}, {m});
    RowsBelow(i, {m}, {});
    ones == Values(table, discard, Rows(i, {}, {m})) && zeros == Values(table, discard, Rows(i, {m}, {}))
  }

  lemma ListedOneMore(table: TruthTable, discard: set<nat>, i: nat, m: nat, zeros: seq<set<nat>>, ones: seq<set<nat>>)
    requires i < |table| && Listed(table, discard, i, m, zeros, ones)
    ensures Bit(i, m) ==> Listed(table, discard, i + 1, m, zeros, ones + [table[i] - discard])
    ensures !Bit(i, m) ==> Listed(table, discard, i + 1, m, zeros + [table[i] - discard], ones)
  {
    RowsBelow(i, {}, {m});
    RowsBelow(i, {m}, {});
    RowsBelow(i + 1, {}, {m});
    RowsBelow(i + 1, {m}, {});
    assert Picked(i, {}, {m}) == Bit(i, m) && Picked(i, {m}, {}) == !Bit(i, m);
  }

  method ListRow(table: TruthTable, discard: set<nat>, inputs: nat, i: nat, zeros0: seq<seq<set<nat>>>,
                 ones0: seq<seq<set<nat>>>)
    returns (zeros: seq<seq<set<nat>>>, ones: seq<seq<set<nat>>>)
    requires i < |table| && |zeros0| == |ones0| == inputs
    requires forall m :: 0 <= m < inputs ==> Listed(table, discard, i, m, zeros0[m], ones0[m])
    ensures |zeros| == |ones| == inputs
    ensures forall m :: 0 <= m < inputs ==> Listed(table, discard, i + 1, m, zeros[m], ones[m])
  {
    zeros, ones := zeros0, ones0;
    var value := table[i] - discard;
    var m := 0;
    while m < inputs
      invariant m <= inputs && |zeros| == |ones| == inputs
      invariant forall k :: 0 <= k < m ==> Listed(table, discard, i + 1, k, zeros[k], ones[k])
      invariant forall k :: m <= k < inputs ==> Listed(table, discard, i, k, zeros[k], ones[k])
    {
      ListedOneMore(table, discard, i, m, zeros[m], ones[m]);
      if Bit(i, m) {
        ones := ones[m := ones[m] + [value]];
      } else {
        zeros := zeros[m := zeros[m] + [value]];
      }
      m := m + 1;
    }
  }

  lemma SameListsAgree(table: TruthTable, inputs: nat, discard: set<nat>, m: nat, values: seq<set<nat>>, t: nat, n: nat)
    requires |table| == Pow2(inputs) && m < inputs && Listed(table, discard, |table|, m, values, values)
    requires t + Pow2(m) < |table| && !Bit(t, m) && n !in discard
    ensures n in table[t] <==> n in table[t + Pow2(m)]
  {
    RowsPair(inputs, m);
    var i := PickedIsListed(|table|, {m}, {}, t);
    assert values[i] == table[t] - discard && values[i] == table[t + Pow2(m)] - discard;
    assert n in values[i] <==> n in table[t];
  }

  /** The two lists of an input are the same exactly if no meaningful output depends on it. */
  lemma SameListsUnread(table: TruthTable, inputs: nat, outputs: nat, discard: set<nat>, m: nat,
                        zeros: seq<set<nat>>, ones: seq<set<nat>>)
    requires |table| == Pow2(inputs) && m < inputs && Listed(table, discard, |table|, m, zeros, ones)
    requires forall t :: 0 <= t < |table| ==> table[t] <= Below(outputs)
    ensures zeros == ones <==> Unread(table, outputs, discard, m)
  {
    RowsPair(inputs, m);
    RowsBelow(|table|, {}, {m});
    RowsBelow(|table|, {m}, {});
    var low := Rows(|table|, {m}, {});
    if zeros == ones {
      forall n | 0 <= n < outputs && n !in discard
        ensures !DependsOn(MaskColumn(table, n), m)
      {
        var c := MaskColumn(table, n);
        if DependsOn(c, m) {
          var t: nat :| t + Pow2(m) < |c| && !Bit(t, m) && c[t] != c[t + Pow2(m)];
          SameListsAgree(table, inputs, discard, m, zeros, t, n);
          assert false;
        }
      }
    }
    if Unread(table, outputs, discard, m) {
      forall i | 0 <= i < |low|
        ensures zeros[i] == ones[i]
      {
        assert zeros[i] == table[low[i]] - discard && ones[i] == table[low[i] + Pow2(m)] - discard;
        RowsArePicked(|table|, {m}, {}, i);
        assert m in {m};
        SameValues(table, outputs, discard, m, low[i]);
      }
    }
  }

  lemma SameValues(table: TruthTable, outputs: nat, discard: set<nat>, m: nat, t: nat)
    requires t + Pow2(m) < |table| && !Bit(t, m) && Unread(table, outputs, discard, m)
    requires table[t] <= Below(outputs) && table[t + Pow2(m)] <= Below(outputs)
    ensures table[t] - discard == table[t + Pow2(m)] - discard
  {
    forall n | n in Below(outputs) && n !in discard
      ensures n in table[t] <==> n in table[t + Pow2(m)]
    {
      assert !DependsOn(MaskColumn(table, n), m);
    }
  }

  method FindUnused(table: TruthTable, inputs: nat, outputs: nat, discard: set<nat>)
    returns (off: set<nat>, unused: seq<nat>)
    requires |table| == Pow2(inputs) && forall t :: 0 <= t < |table| ==> table[t] <= Below(outputs)
    ensures off == Discarded(table, inputs, outputs, discard)
    ensures Climbs(unused) && forall m :: m in unused <==> m in off
  {
    var zeros, ones: seq<seq<set<nat>>> := seq(inputs, m => []), seq(inputs, m => []);
    var index := 0;
    while index < |table|
      invariant index <= |table| && |zeros| == |ones| == inputs
      invariant forall m :: 0 <= m < inputs ==> Listed(table, discard, index, m, zeros[m], ones[m])
    {
      zeros, ones := ListRow(table, discard, inputs, index, zeros, ones);
      index := index + 1;
    }
    off, unused := ComparePairs(table, inputs, outputs, discard, zeros, ones);
  }

  method ComparePairs(table: TruthTable, inputs: nat, outputs: nat, discard: set<nat>, zeros: seq<seq<set<nat>>>,
                      ones: seq<seq<set<nat>>>)
    returns (off: set<nat>, unused: seq<nat>)
    requires |table| == Pow2(inputs) && forall t :: 0 <= t < |table| ==> table[t] <= Below(outputs)
    requires |zeros| == |ones| == inputs
    requires forall m :: 0 <= m < inputs ==> Listed(table, discard, |table|, m, zeros[m], ones[m])
    ensures off == Discarded(table, inputs, outputs, discard)
    ensures Climbs(unused) && forall m :: m in unused <==> m in off
  {
    off, unused := {}, [];
    var m := 0;
    while m < inputs
      invariant m <= inputs && off == Discarded(table, m, outputs, discard)
      invariant Climbs(unused) && forall k :: k in unused <==> k in off
    {
      SameListsUnread(table, inputs, outputs, discard, m, zeros[m], ones[m]);
      if zeros[m] == ones[m] {
        ClimbOn(unused, m);
        unused := unused + [m];
        off := off + {m};
      }
      m := m + 1;
    }
  }

  // ---- Rendering the columns ----

  /** Word `w` of a column of which `i` rows have been rendered. */
  function PartWord(c: Column, w: nat, i: nat): nat {
    if 32 * w <= GroupEnd(w, i) <= |c| then Num(c[32 * w..GroupEnd(w, i)]) else 0
  }

  function Part(c: Column, off: set<nat>, i: nat): Rendered {
    map w | w in UsedWords(i, off) :: PartWord(c, w, i)
  }

  lemma PartWordGrows(c: Column, w: nat, i: nat)
    requires i < |c|
    ensures w == i / 32 ==> PartWord(c, w, i + 1) == Or(PartWord(c, w, i), Shl(if c[i] then 1 else 0, i % 32))
    ensures w < i / 32 ==> PartWord(c, w, i + 1) == PartWord(c, w, i)
  {
    if w == i / 32 {
      AddBit(c, 32 * w, i, i + 1, i % 32, if c[i] then 1 else 0);
    }
  }

  lemma UsedWordsSoFar(i: nat, off: set<nat>, w: nat)
    requires w in UsedWords(i, off)
    ensures w <= i / 32
  {
    var t := UsedWordHasRow(i, off, w);
  }

  lemma {:induction false} NumOfClear(bits: seq<bool>)
    requires forall i :: 0 <= i < |bits| ==> !bits[i]
    ensures Num(bits) == 0
  {
    if bits != [] {
      NumOfClear(bits[1..]);
    }
  }

  /** A word without a kept row so far is still 0. */
  lemma NewWordIsZero(table: TruthTable, n: nat, off: set<nat>, i: nat)
    requires i < |table| && i / 32 !in UsedWords(i, off)
    ensures PartWord(KeptColumn(table, n, off), i / 32, i) == 0
  {
    hide KeptColumn, Picked;
    var c, w := KeptColumn(table, n, off), i / 32;
    var bits := c[32 * w..i];
    forall k | 0 <= k < |bits|
      ensures !bits[k]
    {
      var t := 32 * w + k;
      assert bits[k] == c[t];
      if Picked(t, off, {}) {
        WordIsUsed(i, off, t);
      }
    }
    NumOfClear(bits);
  }

  /** `$newtruth[$n][$w] | (bit << $b)`; a missing word counts as 0. */
  function WithBit(words: Rendered, w: nat, bit: nat, b: nat): nat {
    Or(if w in words then words[w] else 0, Shl(bit, b))
  }

  /** What one row does to one column. */
  lemma PartGrows(table: TruthTable, n: nat, off: set<nat>, i: nat)
    requires i < |table|
    ensures var c, w := KeptColumn(table, n, off), i / 32; var part := Part(c, off, i);
      && (!Picked(i, off, {}) ==> Part(c, off, i + 1) == part)
      && (Picked(i, off, {}) ==> Part(c, off, i + 1) == part[w := WithBit(part, w, if n in table[i] then 1 else 0, i % 32)])
  {
    var c, w := KeptColumn(table, n, off), i / 32;
    if w !in UsedWords(i, off) {
      NewWordIsZero(table, n, off, i);
    }
    PartWordGrows(c, w, i);
    OtherWordsStay(c, off, i);
    if !Picked(i, off, {}) {
      ShlZero(i % 32);
      OrWithZero(PartWord(c, w, i));
      SamePart(c, off, i);
    } else {
      NextPart(c, off, i, Or(PartWord(c, w, i), Shl(if c[i] then 1 else 0, i % 32)));
    }
  }

  lemma SamePart(c: Column, off: set<nat>, i: nat)
    requires i < |c| && !Picked(i, off, {})
    requires forall v :: v in UsedWords(i, off) ==> PartWord(c, v, i + 1) == PartWord(c, v, i)
    ensures Part(c, off, i + 1) == Part(c, off, i)
  {
    hide PartWord;
  }

  lemma NextPart(c: Column, off: set<nat>, i: nat, word: nat)
    requires i < |c| && Picked(i, off, {}) && PartWord(c, i / 32, i + 1) == word
    requires forall v :: v in UsedWords(i, off) && v != i / 32 ==> PartWord(c, v, i + 1) == PartWord(c, v, i)
    ensures Part(c, off, i + 1) == Part(c, off, i)[i / 32 := word]
  {
    hide PartWord;
  }

  lemma OtherWordsStay(c: Column, off: set<nat>, i: nat)
    requires i < |c|
    ensures forall v :: v in UsedWords(i, off) && v != i / 32 ==> PartWord(c, v, i + 1) == PartWord(c, v, i)
  {
    forall v | v in UsedWords(i, off) && v != i / 32
      ensures PartWord(c, v, i + 1) == PartWord(c, v, i)
    {
      UsedWordsSoFar(i, off, v);
      PartWordGrows(c, v, i);
    }
  }

  lemma OrWithZero(x: nat)
    ensures Or(x, 0) == x
  {
  }

  method RenderRow(table: TruthTable, outputs: nat, off: set<nat>, i: nat, before: seq<Rendered>)
    returns (words: seq<Rendered>)
    requires i < |table| && |before| == outputs && Picked(i, off, {})
    requires forall n :: 0 <= n < outputs ==> before[n] == Part(KeptColumn(table, n, off), off, i)
    ensures |words| == outputs
    ensures forall n :: 0 <= n < outputs ==> words[n] == Part(KeptColumn(table, n, off), off, i + 1)
  {
    words := before;
    var w, b := i / 32, i % 32;
    var n := 0;
    while n < outputs
      invariant n <= outputs && |words| == outputs
      invariant forall k :: 0 <= k < n ==> words[k] == Part(KeptColumn(table, k, off), off, i + 1)
      invariant forall k :: n <= k < outputs ==> words[k] == Part(KeptColumn(table, k, off), off, i)
    {
      PartGrows(table, n, off, i);
      var word := WithBit(words[n], w, if n in table[i] then 1 else 0, b);
      words := words[n := words[n][w := word]];
      n := n + 1;
    }
  }

  method RenderTable(table: TruthTable, outputs: nat, off: set<nat>) returns (words: seq<Rendered>)
    ensures words == RenderedWords(table, outputs, off)
  {
    words := seq(outputs, n => map[]);
    var index := 0;
    while index < |table|
      invariant index <= |table| && |words| == outputs
      invariant forall n :: 0 <= n < outputs ==> words[n] == Part(KeptColumn(table, n, off), off, index)
    {
      if Picked(index, off, {}) {
        words := RenderRow(table, outputs, off, index, words);
      } else {
        forall n | 0 <= n < outputs
          ensures Part(KeptColumn(table, n, off), off, index + 1) == Part(KeptColumn(table, n, off), off, index)
        {
          PartGrows(table, n, off, index);
        }
      }
      index := index + 1;
    }
    forall n | 0 <= n < outputs
      ensures words[n] == Render(KeptColumn(table, n, off), off)
    {
      PartIsWhole(KeptColumn(table, n, off), off);
    }
  }

  lemma PartIsWhole(c: Column, off: set<nat>)
    ensures Part(c, off, |c|) == Render(c, off)
  {
  }

  // ---- Sorting the outputs ----

  lemma {:induction false} CompareFlips(x: Rendered, y: Rendered, n: nat)
    ensures CompareWords(x, y, n) == -CompareWords(y, x, n)
  {
    if n > 0 {
      CompareFlips(x, y, n - 1);
    }
  }

  lemma {:induction false} CompareOrders(x: Rendered, y: Rendered, z: Rendered, n: nat)
    requires x.Keys == y.Keys == z.Keys && CompareWords(x, y, n) <= 0 && CompareWords(y, z, n) <= 0
    ensures CompareWords(x, z, n) <= 0
  {
    if n > 0 && (n - 1 !in x || (x[n - 1] == y[n - 1] == z[n - 1])) {
      CompareOrders(x, y, z, n - 1);
    }
  }

  /** All outputs have the same `n` words. */
  ghost predicate SameKeys(words: seq<Rendered>, n: nat) {
    && (forall a :: 0 <= a < |words| ==> |words[a]| == n)
    && forall a, b :: 0 <= a < |words| && 0 <= b < |words| ==> words[a].Keys == words[b].Keys
  }

  /** The callback of usort: compares two outputs and remembers when they are alike. */
  method CompareOutputs(words: seq<Rendered>, ghost n: nat, a: nat, b: nat, before: map<nat, nat>)
    returns (comp: int, alias: map<nat, nat>)
    requires a < |words| && b < |words| && |words[a]| == n
    ensures comp == CompareWords(words[a], words[b], n)
    ensures alias == if comp == 0 then before[Later(a, b) := Earlier(a, b)] else before
  {
    alias := before;
    var w: nat := |words[a]|;
    while w > 0
      invariant w <= n && CompareWords(words[a], words[b], n) == CompareWords(words[a], words[b], w)
    {
      w := w - 1;
      if w in words[a] && w in words[b] && words[a][w] != words[b][w] {
        var x: int, y: int := words[a][w], words[b][w];
        return y - x, alias;
      }
    }
    alias := alias[Later(a, b) := Earlier(a, b)];
    comp := 0;
  }

  /** The first `|order|` outputs are in order. */
  ghost predicate Sorting(order: seq<nat>, alias: map<nat, nat>, words: seq<Rendered>, n: nat) {
    && |order| <= |words| && Permutes(order, |order|)
    && (forall i, j :: 0 <= i < j < |order| ==> CompareWords(words[order[i]], words[order[j]], n) <= 0)
    && (forall a :: a in alias ==> AliasFits(a, alias[a], words, n))
    && (forall i :: 0 <= i < |order| - 1 ==> NeighboursSeen(order, alias, words, n, i))
  }

  lemma SortingEnds(order: seq<nat>, alias: map<nat, nat>, words: seq<Rendered>, n: nat)
    requires Sorting(order, alias, words, n) && |order| >= |words|
    ensures SortOutcome(order, alias, words, n)
  {
  }

  /** The next output put in at place `j`. */
  function Placed(order: seq<nat>, j: nat): (placed: seq<nat>)
    requires j <= |order|
    ensures |placed| == |order| + 1
  {
    order[..j] + [|order|] + order[j..]
  }

  lemma PlacedAt(order: seq<nat>, j: nat)
    requires j <= |order|
    ensures forall i :: 0 <= i < |Placed(order, j)| ==>
      Placed(order, j)[i] == if i < j then order[i] else if i == j then |order| else order[i - 1]
  {
    var placed := Placed(order, j);
    assert placed == order[..j] + [|order|] + order[j..];
    forall i | 0 <= i < |placed|
      ensures placed[i] == if i < j then order[i] else if i == j then |order| else order[i - 1]
    {
    }
  }

  /** Finds the place of the next output by comparing it with those in front of it. */
  method FindPlace(order: seq<nat>, words: seq<Rendered>, ghost n: nat, before: map<nat, nat>)
    returns (j: nat, alias: map<nat, nat>)
    requires Sorting(order, before, words, n) && |order| < |words| && SameKeys(words, n)
    ensures j <= |order| && before.Keys <= alias.Keys
    ensures forall a :: a in alias ==> AliasFits(a, alias[a], words, n)
    ensures forall k :: j <= k < |order| ==> CompareWords(words[order[k]], words[|order|], n) > 0
    ensures j > 0 ==> CompareWords(words[order[j - 1]], words[|order|], n) <= 0
    ensures j > 0 && CompareWords(words[order[j - 1]], words[|order|], n) == 0 ==> |order| in alias
  {
    var x := |order|;
    j, alias := x, before;
    while j > 0
      invariant j <= x && alias == before
      invariant forall k :: j <= k < x ==> CompareWords(words[order[k]], words[x], n) > 0
    {
      var comp;
      comp, alias := CompareOutputs(words, n, order[j - 1], x, alias);
      if comp <= 0 {
        return;
      }
      j := j - 1;
    }
  }

  lemma PlaceKeepsSorting(order: seq<nat>, words: seq<Rendered>, n: nat, before: map<nat, nat>, j: nat,
                          alias: map<nat, nat>)
    requires Sorting(order, before, words, n) && |order| < |words| && SameKeys(words, n)
    requires j <= |order| && before.Keys <= alias.Keys
    requires forall a :: a in alias ==> AliasFits(a, alias[a], words, n)
    requires forall k :: j <= k < |order| ==> CompareWords(words[order[k]], words[|order|], n) > 0
    requires j > 0 ==> CompareWords(words[order[j - 1]], words[|order|], n) <= 0
    requires j > 0 && CompareWords(words[order[j - 1]], words[|order|], n) == 0 ==> |order| in alias
    ensures Sorting(Placed(order, j), alias, words, n)
  {
    hide Placed, CompareWords;
    forall k | 0 <= k < |order|
      ensures k < j ==> CompareWords(words[order[k]], words[|order|], n) <= 0
      ensures k >= j ==> CompareWords(words[|order|], words[order[k]], n) < 0
    {
      if k < j - 1 {
        CompareOrders(words[order[k]], words[order[j - 1]], words[|order|], n);
      }
      CompareFlips(words[|order|], words[order[k]], n);
    }
    PlacedMembers(order, j);
    PlacedInOrder(order, words, n, j);
    PlacedNeighbours(order, words, n, before, j, alias);
  }

  lemma PlacedMembers(order: seq<nat>, j: nat)
    requires j <= |order| && Permutes(order, |order|)
    ensures Permutes(Placed(order, j), |order| + 1)
  {
    var placed := Placed(order, j);
    PlacedAt(order, j);
    hide Placed;
    forall i | 0 <= i < |placed|
      ensures Has(placed, i)
    {
      if i < |order| {
        assert Has(order, i);
        var k :| 0 <= k < |order| && order[k] == i;
        assert placed[if k < j then k else k + 1] == i;
      } else {
        assert placed[j] == i;
      }
    }
  }

  lemma PlacedInOrder(order: seq<nat>, words: seq<Rendered>, n: nat, j: nat)
    requires j <= |order| < |words| && forall i :: 0 <= i < |order| ==> order[i] < |words|
    requires forall i, k :: 0 <= i < k < |order| ==> CompareWords(words[order[i]], words[order[k]], n) <= 0
    requires forall k :: 0 <= k < j ==> CompareWords(words[order[k]], words[|order|], n) <= 0
    requires forall k :: j <= k < |order| ==> CompareWords(words[|order|], words[order[k]], n) < 0
    ensures var placed := Placed(order, j);
      && (forall i :: 0 <= i < |placed| ==> placed[i] < |words|)
      && forall i, k :: 0 <= i < k < |placed| ==> CompareWords(words[placed[i]], words[placed[k]], n) <= 0
  {
    PlacedAt(order, j);
  }

  lemma PlacedNeighbours(order: seq<nat>, words: seq<Rendered>, n: nat, before: map<nat, nat>, j: nat,
                         alias: map<nat, nat>)
    requires j <= |order| < |words| && before.Keys <= alias.Keys
    requires forall i :: 0 <= i < |order| ==> order[i] < |order|
    requires forall i :: 0 <= i < |order| - 1 ==> NeighboursSeen(order, before, words, n, i)
    requires j > 0 && CompareWords(words[order[j - 1]], words[|order|], n) == 0 ==> |order| in alias
    requires j < |order| ==> CompareWords(words[|order|], words[order[j]], n) < 0
    ensures var placed := Placed(order, j);
      && (forall i :: 0 <= i < |placed| ==> placed[i] < |words|)
      && forall i :: 0 <= i < |placed| - 1 ==> NeighboursSeen(placed, alias, words, n, i)
  {
    hide CompareWords;
    var placed := Placed(order, j);
    PlacedAt(order, j);
    hide Placed;
    forall i | 0 <= i < |placed| - 1
      ensures NeighboursSeen(placed, alias, words, n, i)
    {
      if i < j - 1 {
        assert NeighboursSeen(order, before, words, n, i);
      } else if i > j {
        assert NeighboursSeen(order, before, words, n, i - 1);
      }
    }
  }

  method SortOutputs(words: seq<Rendered>, ghost n: nat) returns (order: seq<nat>, alias: map<nat, nat>)
    requires SameKeys(words, n)
    ensures SortOutcome(order, alias, words, n)
  {
    order, alias := [], map[];
    assert Sorting([], map[], words, n);
    hide *;
    while |order| < |words|
      invariant Sorting(order, alias, words, n)
      decreases |words| - |order|
    {
      ghost var before := alias;
      var j;
      j, alias := FindPlace(order, words, n, alias);
      PlaceKeepsSorting(order, words, n, before, j, alias);
      order := Placed(order, j);
    }
    SortingEnds(order, alias, words, n);
  }

  // ---- The new numbers ----

  /** `$revmapping`, for outputs that have been numbered in this order */
  ghost predicate NumbersOf(numbers: map<nat, nat>, chosen: seq<nat>) {
    && (forall o :: 0 <= o < |chosen| ==> chosen[o] in numbers && numbers[chosen[o]] == o)
    && forall n :: n in numbers ==> numbers[n] < |chosen| && chosen[numbers[n]] == n
  }

  lemma NumberIsUnique(numbers: map<nat, nat>, chosen: seq<nat>, n: nat)
    requires NumbersOf(numbers, chosen) && n in chosen
    ensures n in numbers && numbers[n] == NumberOf(chosen, n)
  {
    assert chosen[NumberOf(chosen, n)] == n;
  }

  lemma SelectedOneMore(order: seq<nat>, i: nat, skip: set<nat>)
    requires i < |order|
    ensures var chosen := Selected(order[..i], skip);
      Selected(order[..i + 1], skip) == if order[i] in skip then chosen else chosen + [order[i]]
  {
    assert order[..i + 1][..i] == order[..i];
  }

  lemma NumberOneMore(numbers: map<nat, nat>, chosen: seq<nat>, n: nat)
    requires NumbersOf(numbers, chosen) && n !in chosen
    ensures NumbersOf(numbers[n := |chosen|], chosen + [n])
  {
    assert n !in numbers;
  }

  /** An output that is not skipped gets the next number. */
  lemma NumberNext(numbers: map<nat, nat>, order: seq<nat>, i: nat, skip: set<nat>)
    requires i < |order| && NumbersOf(numbers, Selected(order[..i], skip))
    requires forall a, b :: 0 <= a < b < |order| ==> order[a] != order[b]
    ensures var chosen, more := Selected(order[..i], skip), Selected(order[..i + 1], skip);
      if order[i] in skip then more == chosen
      else |more| == |chosen| + 1 && NumbersOf(numbers[order[i] := |chosen|], more)
  {
    SelectedOneMore(order, i, skip);
    if order[i] !in skip {
      NumberOneMore(numbers, Selected(order[..i], skip), order[i]);
    }
  }

  method NumberOutputs(order: seq<nat>, alias: map<nat, nat>, trivial: map<nat, Target>)
    returns (numbers: map<nat, nat>, count: nat)
    requires forall i, j :: 0 <= i < j < |order| ==> order[i] != order[j]
    ensures NumbersOf(numbers, Selected(order, trivial.Keys + alias.Keys))
    ensures count == |Selected(order, trivial.Keys + alias.Keys)|
  {
    ghost var skip := trivial.Keys + alias.Keys;
    numbers, count := map[], 0;
    var i := 0;
    assert order[..0] == [] && Selected([], skip) == [] && NumbersOf(numbers, []);
    hide Selected, NumbersOf;
    while i < |order|
      invariant i <= |order| && NumbersOf(numbers, Selected(order[..i], skip))
      invariant count == |Selected(order[..i], skip)|
    {
      var n := order[i];
      NumberNext(numbers, order, i, skip);
      if n !in alias && n !in trivial {
        numbers := numbers[n := count];
        count := count + 1;
      }
      i := i + 1;
    }
    assert order[..i] == order;
  }

  // ---- The compressed table ----

  /** The row bits for the outputs below `n`. */
  ghost function RowBits(value: set<nat>, numbers: map<nat, nat>, n: nat): set<nat> {
    set k | k in numbers && k < n && k in value :: numbers[k]
  }

  lemma RowBitsAreNew(value: set<nat>, numbers: map<nat, nat>, chosen: seq<nat>, outputs: nat)
    requires NumbersOf(numbers, chosen) && forall n :: n in chosen ==> n < outputs
    ensures RowBits(value, numbers, outputs) == NewRow(value, chosen)
  {
    var bits, row := RowBits(value, numbers, outputs), NewRow(value, chosen);
    forall o | o in row
      ensures o in bits
    {
      var k := chosen[o];
      assert k in chosen && k in numbers && chosen[numbers[k]] == k;
    }
  }

  method CompressRow(value: set<nat>, outputs: nat, numbers: map<nat, nat>, ghost chosen: seq<nat>)
    returns (row: set<nat>)
    requires NumbersOf(numbers, chosen) && forall n :: n in chosen ==> n < outputs
    ensures row == NewRow(value, chosen)
  {
    row := {};
    var n := 0;
    while n < outputs
      invariant n <= outputs && row == RowBits(value, numbers, n)
    {
      if n in numbers {
        row := row + if n in value then {numbers[n]} else {};
      }
      n := n + 1;
    }
    RowBitsAreNew(value, numbers, chosen, outputs);
  }

  method Compress(table: TruthTable, outputs: nat, off: set<nat>, numbers: map<nat, nat>, ghost chosen: seq<nat>)
    returns (modified: TruthTable)
    requires NumbersOf(numbers, chosen) && forall n :: n in chosen ==> n < outputs
    ensures modified == Modified(table, off, chosen)
  {
    modified := [];
    var index := 0;
    while index < |table|
      invariant index <= |table| && |modified| == |Rows(index, off, {})|
      invariant forall i :: 0 <= i < |modified| ==>
        Rows(index, off, {})[i] < |table| && modified[i] == NewRow(table[Rows(index, off, {})[i]], chosen)
    {
      if Picked(index, off, {}) {
        var row := CompressRow(table[index], outputs, numbers, chosen);
        modified := modified + [row];
      }
      index := index + 1;
    }
  }

  // ---- The mappings ----

  method CompleteMapping(trivial: map<nat, Target>, outputs: nat, alias: map<nat, nat>, numbers: map<nat, nat>,
                         ghost chosen: seq<nat>)
    returns (mapping: map<nat, Target>)
    requires AliasesDown(alias) && NumbersOf(numbers, chosen) && trivial.Keys <= Below(outputs)
    requires forall n :: 0 <= n < outputs && n !in trivial && n !in alias ==> n in chosen
    ensures mapping.Keys == Below(outputs)
    ensures forall n :: 0 <= n < outputs ==> mapping[n] == Resolved(trivial, alias, chosen, n)
  {
    mapping := trivial;
    var n := 0;
    while n < outputs
      invariant n <= outputs && Completed(mapping, trivial, alias, chosen, n)
    {
      if n in mapping {
        CompletedByTrivial(mapping, trivial, alias, chosen, n);
      } else {
        var target;
        if n in alias {
          target := mapping[alias[n]];
        } else {
          NumberIsUnique(numbers, chosen, n);
          target := Computed(numbers[n]);
        }
        CompletedNext(mapping, trivial, alias, chosen, n, target);
        mapping := mapping[n := target];
      }
      n := n + 1;
    }
  }

  /** The targets of the outputs below `n` are known. */
  ghost predicate Completed(mapping: map<nat, Target>, trivial: map<nat, Target>, alias: map<nat, nat>,
                            chosen: seq<nat>, n: nat)
    requires AliasesDown(alias)
  {
    && mapping.Keys == trivial.Keys + Below(n)
    && (forall k :: k in trivial ==> mapping[k] == trivial[k])
    && forall k :: 0 <= k < n ==> mapping[k] == Resolved(trivial, alias, chosen, k)
  }

  lemma CompletedByTrivial(mapping: map<nat, Target>, trivial: map<nat, Target>, alias: map<nat, nat>,
                           chosen: seq<nat>, n: nat)
    requires AliasesDown(alias) && Completed(mapping, trivial, alias, chosen, n) && n in mapping
    ensures Completed(mapping, trivial, alias, chosen, n + 1)
  {
    assert Resolved(trivial, alias, chosen, n) == trivial[n];
  }

  lemma CompletedNext(mapping: map<nat, Target>, trivial: map<nat, Target>, alias: map<nat, nat>, chosen: seq<nat>,
                      n: nat, target: Target)
    requires AliasesDown(alias) && Completed(mapping, trivial, alias, chosen, n) && n !in mapping
    requires target == Resolved(trivial, alias, chosen, n)
    ensures Completed(mapping[n := target], trivial, alias, chosen, n + 1)
  {
  }

  /** Where a variable is fed into the compressed table. */
  function InputPlace(m: nat, off: set<nat>): Option<nat> {
    if m in off then None else Some(Rank(m, off))
  }

  method MapInputs(inputs: nat, off: set<nat>) returns (mapping: seq<Option<nat>>, count: nat)
    ensures |mapping| == inputs && count == Rank(inputs, off)
    ensures forall m :: 0 <= m < inputs ==> mapping[m] == InputPlace(m, off)
  {
    mapping, count := [], 0;
    var n := 0;
    while n < inputs
      invariant n <= inputs && |mapping| == n && count == Rank(n, off)
      invariant forall m :: 0 <= m < n ==> mapping[m] == InputPlace(m, off)
    {
      if n !in off {
        mapping := mapping + [Some(count)];
        count := count + 1;
      } else {
        mapping := mapping + [None];
      }
      n := n + 1;
    }
  }

  lemma RenderedAlike(table: TruthTable, outputs: nat, off: set<nat>)
    ensures SameKeys(RenderedWords(table, outputs, off), |UsedWords(|table|, off)|)
  {
    forall n | 0 <= n < outputs
      ensures RenderedWords(table, outputs, off)[n].Keys == UsedWords(|table|, off)
    {
    }
  }

  /** What Analyze leaves behind. */
  datatype NormalForm = NormalForm(off: set<nat>, mapping: map<nat, Target>, modified: TruthTable, numOutputs: nat,
                                   inputMapping: seq<Option<nat>>, numInputs: nat)

  /** It belongs to the table, given how the sort went. */
  ghost predicate IsNormalForm(table: TruthTable, inputs: nat, outputs: nat, order: seq<nat>, alias: map<nat, nat>,
                               form: NormalForm)
  {
    && AliasesDown(alias) && Outcome(table, inputs, outputs, order, alias, form.off)
    && form.modified == Analyzed(table, inputs, outputs, order, alias).modified
    && form.numOutputs == |Selected(order, TrivialTargets(table, inputs, outputs).Keys + alias.Keys)|
    && form.mapping.Keys == Below(outputs)
    && (forall n :: 0 <= n < outputs ==> form.mapping[n] == Analyzed(table, inputs, outputs, order, alias).mapping[n])
    && form.numInputs == Rank(inputs, form.off) && |form.inputMapping| == inputs
    && forall m :: 0 <= m < inputs ==> form.inputMapping[m] == InputPlace(m, form.off)
  }

  /** All of Analyze, for some course of the sort. */
  method AnalyzeTable(table: TruthTable, inputs: nat, outputs: nat)
    returns (form: NormalForm, unused: seq<nat>, ghost order: seq<nat>, ghost alias: map<nat, nat>)
    requires |table| == Pow2(inputs) && forall t :: 0 <= t < |table| ==> table[t] <= Below(outputs)
    ensures IsNormalForm(table, inputs, outputs, order, alias, form)
    ensures Climbs(unused) && forall m :: m in unused <==> m in form.off && m < inputs
  {
    var trivial := FindTrivial(table, inputs, outputs);
    var off;
    off, unused := FindUnused(table, inputs, outputs, trivial.Keys);
    var words := RenderTable(table, outputs, off);
    RenderedAlike(table, outputs, off);
    var sorted, same := SortOutputs(words, |UsedWords(|table|, off)|);
    order, alias := sorted, same;
    OutcomeAliasesDown(table, inputs, outputs, order, alias, off);
    var mapping, modified, numOutputs := Renumber(table, outputs, off, trivial, sorted, same);
    var inputMapping, numInputs := MapInputs(inputs, off);
    form := NormalForm(off, mapping, modified, numOutputs, inputMapping, numInputs);
  }

  method Renumber(table: TruthTable, outputs: nat, off: set<nat>, trivial: map<nat, Target>, order: seq<nat>,
                  alias: map<nat, nat>)
    returns (mapping: map<nat, Target>, modified: TruthTable, count: nat)
    requires AliasesDown(alias) && trivial.Keys <= Below(outputs) && Permutes(order, outputs)
    ensures var chosen := Selected(order, trivial.Keys + alias.Keys);
      && modified == Modified(table, off, chosen) && count == |chosen| && mapping.Keys == Below(outputs)
      && forall n :: 0 <= n < outputs ==> mapping[n] == Resolved(trivial, alias, chosen, n)
  {
    var numbers;
    numbers, count := NumberOutputs(order, alias, trivial);
    ghost var chosen := Selected(order, trivial.Keys + alias.Keys);
    forall n | 0 <= n < outputs && n !in trivial && n !in alias
      ensures n in chosen
    {
      assert Has(order, n);
    }
    modified := Compress(table, outputs, off, numbers, chosen);
    mapping := CompleteMapping(trivial, outputs, alias, numbers, chosen);
  }
}
