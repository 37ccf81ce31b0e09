/** When the two programs agree about keys: the front end's sort of the uncompressed columns
    followed by LookUp gives the string that the catalogue writes for the same set of functions,
    whatever the arrangement, exactly if no two tables differ by 2^31 or more in the highest
    word in which they differ. */
module KeyAgreement {
  import opened Bits
  import opened BitStream
  import opened Codec
  import opened Lists
  import opened Networks
  import opened Extraction
  import opened OutputOrder
  import opened CanonicalKeys
  import opened Catalogue
  import opened TableRows
  import opened Comparator
  import opened Analysis
  import opened Analyzer
  import opened FrontEnd
  import opened Wrappers

  /** Compares two columns by the highest row in which they differ. */
  function ByHighestRow(c: Column, d: Column): int
    requires |c| == |d|
  {
    if c == [] then 0
    else
      var n := |c| - 1;
      if c[n] != d[n] then (if c[n] then 1 else -1) else ByHighestRow(c[..n], d[..n])
  }

  predicate SameSign(x: int, y: int) {
    (x > 0 <==> y > 0) && (x == 0 <==> y == 0)
  }

  lemma {:induction false} HighestAppend(a: Column, b: Column, c: Column, d: Column)
    requires |a| == |c| && |b| == |d|
    ensures ByHighestRow(a + b, c + d) == if ByHighestRow(b, d) != 0 then ByHighestRow(b, d) else ByHighestRow(a, c)
    decreases |b|
  {
    if b == [] {
      assert a + b == a && c + d == c;
    } else {
      var n := |b| - 1;
      assert (a + b)[..|a + b| - 1] == a + b[..n] && (c + d)[..|c + d| - 1] == c + d[..n];
      HighestAppend(a, b[..n], c, d[..n]);
    }
  }

  lemma {:induction false} HighestOfSame(c: Column, d: Column)
    requires |c| == |d|
    ensures ByHighestRow(c, d) == 0 <==> c == d
    decreases |c|
  {
    if c != [] {
      var n := |c| - 1;
      HighestOfSame(c[..n], d[..n]);
      assert c == c[..n] + [c[n]] && d == d[..n] + [d[n]];
    }
  }

  /** Numbers compare like their bits. */
  lemma {:induction false} NumbersCompare(c: Column, d: Column)
    requires |c| == |d|
    ensures SameSign(Num(c) - Num(d), ByHighestRow(c, d))
    decreases |c|
  {
    if c != [] {
      var n := |c| - 1;
      NumbersCompare(c[..n], d[..n]);
      TopDigit(c);
      TopDigit(d);
    }
  }

  lemma TopDigit(c: Column)
    requires c != []
    ensures var n := |c| - 1;
      Num(c) == Num(c[..n]) + (if c[n] then Pow2(n) else 0) && Num(c[..n]) < Pow2(n)
  {
    var n := |c| - 1;
    NumAppend(c[..n], [c[n]]);
    assert c == c[..n] + [c[n]];
    assert Num([c[n]]) == if c[n] then 1 else 0;
    ShlIsProduct(Num([c[n]]), n);
    NumBound(c[..n]);
  }

  // ---- The front end's comparison ----

  /** One more word. */
  lemma WordAdded(c: Column, d: Column, x: Rendered, y: Rendered, w: nat)
    requires |c| == |d| && 32 * w < |c| && w in x && w in y && x[w] == WordOf(d, w) && y[w] == WordOf(c, w)
    requires SameSign(CompareWords(x, y, w), ByHighestRow(c[..32 * w], d[..32 * w]))
    ensures 32 * w < GroupEnd(w, |c|) <= |c|
    ensures SameSign(CompareWords(x, y, w + 1), ByHighestRow(c[..GroupEnd(w, |c|)], d[..GroupEnd(w, |c|)]))
  {
    WordDecides(c, d, w);
    hide WordOf, ByHighestRow, GroupEnd;
  }

  /** Where the rows of the words below `n` end. */
  function EndOf(n: nat, size: nat): nat {
    if n == 0 then 0 else GroupEnd(n - 1, size)
  }

  /** The words below `n`, for columns whose words are all used below `n`. */
  lemma {:induction false} WordsCompare(c: Column, d: Column, off: set<nat>, n: nat)
    requires |c| == |d| && forall w: nat :: w < n ==> w in UsedWords(|c|, off) && 32 * w < |c|
    ensures EndOf(n, |c|) <= |c| && (n > 0 ==> 32 * (n - 1) < EndOf(n, |c|))
    ensures var end := EndOf(n, |c|);
      SameSign(CompareWords(Render(d, off), Render(c, off), n), ByHighestRow(c[..end], d[..end]))
  {
    if n > 0 {
      var w, x, y := n - 1, Render(d, off), Render(c, off);
      assert w in UsedWords(|c|, off) && x[w] == WordOf(d, w) && y[w] == WordOf(c, w);
      assert 32 * w < |c| && EndOf(w, |c|) == 32 * w && EndOf(w + 1, |c|) == GroupEnd(w, |c|);
      WordsCompare(c, d, off, w);
      hide *;
      WordAdded(c, d, x, y, w);
    }
  }

  lemma WordDecides(c: Column, d: Column, w: nat)
    requires |c| == |d| && 32 * w < |c|
    ensures 32 * w < GroupEnd(w, |c|) <= |c|
    ensures var start, end := 32 * w, GroupEnd(w, |c|); var diff := WordOf(c, w) - WordOf(d, w);
      SameSign(if diff != 0 then diff else ByHighestRow(c[..start], d[..start]), ByHighestRow(c[..end], d[..end]))
  {
    var start, end := 32 * w, GroupEnd(w, |c|);
    NumbersCompare(c[start..end], d[start..end]);
    HighestAppend(c[..start], c[start..end], d[..start], d[start..end]);
    assert c[..end] == c[..start] + c[start..end] && d[..end] == d[..start] + d[start..end];
  }

  /** Columns that are 0 in every row that is not kept. */
  ghost predicate OnlyKept(c: Column, off: set<nat>) {
    forall t :: 0 <= t < |c| && c[t] ==> Picked(t, off, {})
  }

  lemma ClearEnd(c: Column, d: Column, off: set<nat>, start: nat)
    requires |c| == |d| && start <= |c| && OnlyKept(c, off) && OnlyKept(d, off)
    requires forall t :: start <= t < |c| ==> !Picked(t, off, {})
    ensures ByHighestRow(c, d) == ByHighestRow(c[..start], d[..start])
  {
    var b, e := c[start..], d[start..];
    forall i | 0 <= i < |b|
      ensures b[i] == e[i]
    {
      assert b[i] == c[start + i] && e[i] == d[start + i];
    }
    HighestOfSame(b, e);
    HighestAppend(c[..start], b, d[..start], e);
    assert c == c[..start] + b && d == d[..start] + e;
  }

  lemma UsedWordsStart(inputs: nat, off: set<nat>, w: nat)
    requires w in UsedWords(Pow2(inputs), off)
    ensures 32 * w < Pow2(inputs)
  {
    var t := UsedWordHasRow(Pow2(inputs), off, w);
  }

  /** Without a gap, the comparison of Analyze is the one by the highest row. */
  lemma AnalyzeCompares(c: Column, d: Column, inputs: nat, off: set<nat>)
    requires |c| == |d| == Pow2(inputs) && OnlyKept(c, off) && OnlyKept(d, off) && !Gap(inputs, off)
    ensures SameSign(CompareWords(Render(d, off), Render(c, off), |UsedWords(Pow2(inputs), off)|), ByHighestRow(c, d))
  {
    NoGapIsContiguous(inputs, off);
    var used := UsedWords(Pow2(inputs), off);
    var n := |used|;
    FullMask(used, n);
    forall w: nat | w < n
      ensures w in used && 32 * w < |c|
    {
      assert w in Below(n);
      UsedWordsStart(inputs, off, w);
    }
    WordsCompare(c, d, off, n);
    var end := if n == 0 then 0 else GroupEnd(n - 1, |c|);
    forall t | end <= t < |c|
      ensures !Picked(t, off, {})
    {
      if Picked(t, off, {}) {
        WordIsUsed(|c|, off, t);
      }
    }
    ClearEnd(c, d, off, end);
  }

  // ---- The catalogue's comparison ----

  /** The words below `n` of two tables. */
  lemma {:induction false} TablesCompare(c: Column, d: Column, n: nat)
    requires |c| == |d| && n <= |Table(c)| && n <= |Table(d)|
    ensures n == 0 || GroupEnd(n - 1, |c|) <= |c|
    ensures var end := if n == 0 then 0 else GroupEnd(n - 1, |c|);
      SameSign(Difference(Table(c), Table(d), n), ByHighestRow(c[..end], d[..end]))
  {
    if n > 0 {
      var w := n - 1;
      TablesCompare(c, d, w);
      TableSize(c);
      TableWord(c, w);
      TableWord(d, w);
      assert w > 0 ==> GroupEnd(w - 1, |c|) == 32 * w;
      WordDecides(c, d, w);
    }
  }

  /** The unsigned comparison of the tables is the one by the highest row. */
  lemma CatalogueCompares(c: Column, d: Column, inputs: nat)
    requires |c| == |d| == Pow2(inputs)
    ensures |Table(c)| == |Table(d)| == WordCount(inputs)
    ensures SameSign(Difference(Table(c), Table(d), WordCount(inputs)), ByHighestRow(c, d))
  {
    TableSize(c);
    TableSize(d);
    var n := WordCount(inputs);
    TablesCompare(c, d, n);
    assert GroupEnd(n - 1, |c|) == |c|;
    assert c[..|c|] == c && d[..|d|] == d;
  }

  // ---- Compression keeps the order ----

  /** The kept rows below `n` of a column. */
  function Squeezed(c: Column, n: nat, off: set<nat>): Column
    requires n <= |c|
  {
    if n == 0 then []
    else if Picked(n - 1, off, {}) then Squeezed(c, n - 1, off) + [c[n - 1]]
    else Squeezed(c, n - 1, off)
  }

  lemma {:induction false} SqueezedRows(c: Column, n: nat, off: set<nat>)
    requires n <= |c|
    ensures |Squeezed(c, n, off)| == |Rows(n, off, {})|
    ensures forall i :: 0 <= i < |Rows(n, off, {})| ==> Rows(n, off, {})[i] < n && Squeezed(c, n, off)[i] == c[Rows(n, off, {})[i]]
  {
    if n > 0 {
      SqueezedRows(c, n - 1, off);
    }
  }

  lemma {:induction false} SqueezeCompares(c: Column, d: Column, n: nat, off: set<nat>)
    requires n <= |c| == |d| && OnlyKept(c, off) && OnlyKept(d, off)
    ensures |Squeezed(c, n, off)| == |Squeezed(d, n, off)|
    ensures ByHighestRow(Squeezed(c, n, off), Squeezed(d, n, off)) == ByHighestRow(c[..n], d[..n])
  {
    if n > 0 {
      SqueezeCompares(c, d, n - 1, off);
      assert c[..n][..n - 1] == c[..n - 1] && d[..n][..n - 1] == d[..n - 1];
      var s, u := Squeezed(c, n - 1, off), Squeezed(d, n - 1, off);
      if Picked(n - 1, off, {}) {
        assert (s + [c[n - 1]])[..|s|] == s && (u + [d[n - 1]])[..|u|] == u;
      } else {
        assert !c[n - 1] && !d[n - 1];
      }
    }
  }

  // ---- The columns of the compressed table ----

  lemma KeptIsOnlyKept(table: TruthTable, n: nat, off: set<nat>)
    ensures OnlyKept(KeptColumn(table, n, off), off)
  {
  }

  /** Column `o` of the compressed table is output `chosen[o]`, compressed. */
  lemma NewColumnIsSqueezed(table: TruthTable, off: set<nat>, chosen: seq<nat>, o: nat)
    requires o < |chosen|
    ensures MaskColumn(Modified(table, off, chosen), o) == Squeezed(KeptColumn(table, chosen[o], off), |table|, off)
  {
    var kept := KeptColumn(table, chosen[o], off);
    var c, s := MaskColumn(Modified(table, off, chosen), o), Squeezed(kept, |table|, off);
    SqueezedRows(kept, |table|, off);
    forall i | 0 <= i < |c|
      ensures c[i] == s[i]
    {
      RowsArePicked(|table|, off, {}, i);
    }
  }

  /** What is in order in a list is in order among the selected members. */
  lemma {:induction false} SelectedInOrder(order: seq<nat>, skip: set<nat>, i: nat, j: nat) returns (p: nat, q: nat)
    requires i < j < |Selected(order, skip)|
    ensures p < q < |order| && order[p] == Selected(order, skip)[i] && order[q] == Selected(order, skip)[j]
    decreases |order|
  {
    var front := order[..|order| - 1];
    var rest := Selected(front, skip);
    if j < |rest| {
      p, q := SelectedInOrder(front, skip, i, j);
    } else {
      assert rest[i] in rest;
      p :| 0 <= p < |front| && front[p] == rest[i];
      q := |order| - 1;
    }
  }

  /** The meaningful outputs have pairwise distinct columns. */
  ghost predicate MeaningfulDiffer(table: TruthTable, inputs: nat, outputs: nat) {
    forall a, b {:trigger MaskColumn(table, a), MaskColumn(table, b)} ::
      0 <= a < outputs && 0 <= b < outputs && a != b
      && a !in TrivialTargets(table, inputs, outputs) && b !in TrivialTargets(table, inputs, outputs) ==>
        MaskColumn(table, a) != MaskColumn(table, b)
  }

  /** Outputs that compare equal have stayed in order. */
  ghost predicate Stable(order: seq<nat>, words: seq<Rendered>, n: nat)
    requires forall i :: 0 <= i < |order| ==> order[i] < |words|
  {
    forall i, j :: 0 <= i < j < |order| && CompareWords(words[order[i]], words[order[j]], n) == 0 ==> order[i] < order[j]
  }

  /** No two of the outputs that are kept can be the same function: there are no two such
      outputs, or the sort was stable, as it is from PHP 8 on. */
  ghost predicate NoTwins(table: TruthTable, inputs: nat, outputs: nat, order: seq<nat>, off: set<nat>) {
    MeaningfulDiffer(table, inputs, outputs)
    || ((forall i :: 0 <= i < |order| ==> order[i] < outputs)
        && Stable(order, RenderedWords(table, outputs, off), |UsedWords(Pow2(inputs), off)|))
  }

  /** Equal ends make everything in between equal. */
  lemma {:induction false} CompareBetween(x: Rendered, y: Rendered, z: Rendered, n: nat)
    requires x.Keys == y.Keys == z.Keys
    requires CompareWords(x, y, n) <= 0 && CompareWords(y, z, n) <= 0 && CompareWords(x, z, n) == 0
    ensures CompareWords(y, z, n) == 0
  {
    if n > 0 {
      CompareBetween(x, y, z, n - 1);
    }
  }

  /** In a stable sort the last one of two equal outputs has become an alias. */
  lemma StableAliases(order: seq<nat>, alias: map<nat, nat>, words: seq<Rendered>, n: nat, p: nat, q: nat)
    requires SortOutcome(order, alias, words, n) && Stable(order, words, n) && p < q < |order|
    requires forall i, j :: 0 <= i < |words| && 0 <= j < |words| ==> words[i].Keys == words[j].Keys
    requires CompareWords(words[order[p]], words[order[q]], n) == 0
    ensures order[q] in alias
  {
    var r := q - 1;
    if p < r {
      CompareBetween(words[order[p]], words[order[r]], words[order[q]], n);
    }
    assert NeighboursSeen(order, alias, words, n, r);
  }

  /** Two selected outputs: the earlier one is strictly above. */
  lemma SelectedDescend(table: TruthTable, inputs: nat, outputs: nat, order: seq<nat>, alias: map<nat, nat>,
                        off: set<nat>, p: nat, q: nat)
    requires Outcome(table, inputs, outputs, order, alias, off) && !Gap(inputs, off)
    requires NoTwins(table, inputs, outputs, order, off)
    requires p < q < |order| && order[p] !in TrivialTargets(table, inputs, outputs)
    requires order[q] !in TrivialTargets(table, inputs, outputs) && order[q] !in alias
    ensures ByHighestRow(KeptColumn(table, order[p], off), KeptColumn(table, order[q], off)) > 0
  {
    var a, b := order[p], order[q];
    var c, d := KeptColumn(table, a, off), KeptColumn(table, b, off);
    var words, n := RenderedWords(table, outputs, off), |UsedWords(Pow2(inputs), off)|;
    assert CompareWords(words[a], words[b], n) <= 0;
    CompareFlips(Render(c, off), Render(d, off), n);
    AnalyzeCompares(c, d, inputs, off);
    HighestOfSame(c, d);
    if c == d {
      SameSelected(table, inputs, outputs, order, alias, off, p, q);
      assert false;
    }
  }

  lemma SameSelected(table: TruthTable, inputs: nat, outputs: nat, order: seq<nat>, alias: map<nat, nat>,
                     off: set<nat>, p: nat, q: nat)
    requires Outcome(table, inputs, outputs, order, alias, off) && !Gap(inputs, off) && p < q < |order|
    requires order[p] !in TrivialTargets(table, inputs, outputs)
    requires order[q] !in TrivialTargets(table, inputs, outputs)
    requires KeptColumn(table, order[p], off) == KeptColumn(table, order[q], off)
    ensures !MeaningfulDiffer(table, inputs, outputs)
    ensures Stable(order, RenderedWords(table, outputs, off), |UsedWords(Pow2(inputs), off)|) ==> order[q] in alias
  {
    var a, b := order[p], order[q];
    var c, d := KeptColumn(table, a, off), KeptColumn(table, b, off);
    NoGapTellsApart(inputs, off);
    forall t | 0 <= t < |table| && Picked(t, off, {})
      ensures MaskColumn(table, a)[t] == MaskColumn(table, b)[t]
    {
      assert c[t] == d[t];
    }
    SameMeaningful(MaskColumn(table, a), MaskColumn(table, b), inputs, off);
    var words, n := RenderedWords(table, outputs, off), |UsedWords(Pow2(inputs), off)|;
    if Stable(order, words, n) {
      CompareFlips(words[a], words[b], n);
      StableAliases(order, alias, words, n, p, q);
    }
  }

  /** Leaving the other rows out keeps the order of two columns. */
  lemma KeptToNew(table: TruthTable, off: set<nat>, chosen: seq<nat>, i: nat, j: nat)
    requires i < |chosen| && j < |chosen|
    requires ByHighestRow(KeptColumn(table, chosen[i], off), KeptColumn(table, chosen[j], off)) > 0
    ensures var modified := Modified(table, off, chosen);
      var c, d := MaskColumn(modified, i), MaskColumn(modified, j);
      |c| == |d| && ByHighestRow(c, d) > 0
  {
    hide ByHighestRow;
    NewColumnIsSqueezed(table, off, chosen, i);
    NewColumnIsSqueezed(table, off, chosen, j);
    var c, d := KeptColumn(table, chosen[i], off), KeptColumn(table, chosen[j], off);
    KeptIsOnlyKept(table, chosen[i], off);
    KeptIsOnlyKept(table, chosen[j], off);
    SqueezeCompares(c, d, |table|, off);
    assert c[..|table|] == c && d[..|table|] == d;
  }

  /** The compressed columns are listed by the highest row, largest first. */
  lemma NewColumnsDescend(table: TruthTable, inputs: nat, outputs: nat, order: seq<nat>, alias: map<nat, nat>,
                          form: NormalForm, i: nat, j: nat)
    requires IsNormalForm(table, inputs, outputs, order, alias, form) && !Gap(inputs, form.off)
    requires NoTwins(table, inputs, outputs, order, form.off) && i < j < form.numOutputs
    ensures var c, d := MaskColumn(form.modified, i), MaskColumn(form.modified, j);
      |c| == |d| && ByHighestRow(c, d) > 0
  {
    hide ByHighestRow;
    var skip := TrivialTargets(table, inputs, outputs).Keys + alias.Keys;
    var chosen := Selected(order, skip);
    var p, q := SelectedInOrder(order, skip, i, j);
    assert chosen[i] in chosen && chosen[j] in chosen;
    SelectedDescend(table, inputs, outputs, order, alias, form.off, p, q);
    KeptToNew(table, form.off, chosen, i, j);
  }

  // ---- The list that the front end looks up ----

  /** Equally long columns, each larger than the next one by its highest row. */
  ghost predicate FrontList(columns: seq<Column>, inputs: nat) {
    && IsColumns(columns, inputs)
    && forall i, j {:trigger Larger(columns[i], columns[j])} :: 0 <= i < j < |columns| ==> Larger(columns[i], columns[j])
  }

  ghost predicate Larger(c: Column, d: Column) {
    |c| == |d| && ByHighestRow(c, d) > 0
  }

  lemma NewColumnsAreFrontList(table: TruthTable, inputs: nat, outputs: nat, order: seq<nat>, alias: map<nat, nat>,
                               form: NormalForm)
    requires IsNormalForm(table, inputs, outputs, order, alias, form) && !Gap(inputs, form.off)
    requires NoTwins(table, inputs, outputs, order, form.off)
    ensures FrontList(NewColumns(form.modified, form.numOutputs), form.numInputs)
  {
    var columns := NewColumns(form.modified, form.numOutputs);
    RowAtPosition(0, inputs, form.off);
    forall i, j | 0 <= i < j < |columns|
      ensures Larger(columns[i], columns[j])
    {
      NewColumnsDescend(table, inputs, outputs, order, alias, form, i, j);
    }
  }

  lemma FrontListDiffers(columns: seq<Column>, inputs: nat)
    requires FrontList(columns, inputs)
    ensures !Repeats(columns)
  {
    forall i, j | 0 <= i < j < |columns|
      ensures columns[i] != columns[j]
    {
      assert Larger(columns[i], columns[j]);
      HighestOfSame(columns[i], columns[j]);
    }
  }

  /** In the highest word in which two of the tables differ, they differ by less than 2^31. */
  ghost predicate AllClose(columns: seq<Column>, inputs: nat)
    requires IsColumns(columns, inputs)
  {
    TablesAreFamily(columns, inputs);
    forall i, j {:trigger Tables(columns)[i], Tables(columns)[j]} :: 0 <= i < j < |columns| ==>
      Difference(Tables(columns)[i], Tables(columns)[j], WordCount(inputs)) < 0x8000_0000
  }

  /** The front end's list is descending for the catalogue exactly if no two of its tables are
      too far apart. */
  lemma DownIffClose(columns: seq<Column>, inputs: nat)
    requires FrontList(columns, inputs)
    ensures StrictlyDown(Tables(columns), WordCount(inputs)) <==> AllClose(columns, inputs)
  {
    TablesAreFamily(columns, inputs);
    var tables, words := Tables(columns), WordCount(inputs);
    forall i, j | 0 <= i < j < |tables|
      ensures Above(tables[i], tables[j], words) <==> Difference(tables[i], tables[j], words) < 0x8000_0000
    {
      assert Larger(columns[i], columns[j]);
      CatalogueCompares(columns[i], columns[j], inputs);
      AboveIffClose(tables[i], tables[j], words, words);
    }
  }

  lemma SmallIsClose(columns: seq<Column>, inputs: nat)
    requires IsColumns(columns, inputs) && SmallColumns(columns, inputs)
    ensures AllClose(columns, inputs)
  {
    TablesAreFamily(columns, inputs);
    var tables, words := Tables(columns), WordCount(inputs);
    forall i, j | 0 <= i < j < |tables|
      ensures Difference(tables[i], tables[j], words) < 0x8000_0000
    {
      SmallDifference(tables[i], tables[j], words, words);
    }
  }

  /** The catalogue lists a family with the same set of columns in the same order. */
  lemma SameList(columns: seq<Column>, family: seq<Column>, inputs: nat)
    requires IsColumns(columns, inputs) && StrictlyDown(Tables(columns), WordCount(inputs))
    requires IsColumns(family, inputs) && SortedColumns(family, inputs).Some? && ColumnSet(family) == ColumnSet(columns)
    ensures SortedColumns(family, inputs) == Some(columns)
  {
    DownIsOrdered(columns, inputs);
    OrderedBySet(columns, family, inputs);
    SortedMembers(family, inputs);
    SortedDescends(family, inputs);
    DescendingAgree(SortedColumns(family, inputs).value, columns, inputs);
  }

  /** A strictly descending list is ordered. */
  lemma DownIsOrdered(columns: seq<Column>, inputs: nat)
    requires IsColumns(columns, inputs) && StrictlyDown(Tables(columns), WordCount(inputs))
    ensures OrderedColumns(columns, inputs)
  {
    var tables, words := Tables(columns), WordCount(inputs);
    forall i, j, k | 0 <= i < |tables| && 0 <= j < |tables| && 0 <= k < |tables|
      ensures Decided(tables[i], tables[j], words) && Chains(tables[i], tables[j], tables[k], words)
    {
      DownAbove(tables, words, i, j);
      DownAbove(tables, words, j, k);
      DownAbove(tables, words, i, k);
    }
  }

  lemma DownAbove(tables: seq<Words>, words: nat, i: nat, j: nat)
    requires StrictlyDown(tables, words) && i < |tables| && j < |tables|
    ensures Above(tables[i], tables[j], words) <==> i < j
  {
    if i < j {
      assert Above(tables[i], tables[j], words);
    } else if j < i {
      NotBothAbove(tables[j], tables[i], words, words);
    } else {
      CompareZero(tables[i], tables[i], words, words);
    }
  }

  /** The catalogue lists all arrangements as the front end does, exactly if no two tables are
      too far apart. */
  lemma ListsAgreeIffClose(columns: seq<Column>, inputs: nat)
    requires FrontList(columns, inputs)
    ensures AlwaysListed(columns, inputs) <==> AllClose(columns, inputs)
  {
    FrontListDiffers(columns, inputs);
    DownIffClose(columns, inputs);
    if AllClose(columns, inputs) {
      forall family: seq<Column> | IsColumns(family, inputs) && Arrangement(family, columns)
        ensures SortedColumns(family, inputs) == Some(columns)
      {
        DifferentAreSorted(family, inputs);
        SameList(columns, family, inputs);
      }
    }
    if AlwaysListed(columns, inputs) {
      assert Arrangement(columns, columns);
      CanonicalIffOrdered(columns, inputs);
      SortedDescends(columns, inputs);
    }
  }

  ghost predicate AlwaysListed(columns: seq<Column>, inputs: nat)
    requires IsColumns(columns, inputs)
  {
    forall family: seq<Column> :: IsColumns(family, inputs) && Arrangement(family, columns) ==>
      SortedColumns(family, inputs) == Some(columns)
  }

  // ---- The keys ----

  /** `logged` is the key that the catalogue writes for the family. */
  ghost predicate LoggedKey(logged: string, family: seq<Column>, inputs: nat) {
    && IsColumns(family, inputs) && SortedColumns(family, inputs).Some?
    && Encodes(BASE64_CSET, logged, KeyBits(inputs, SortedColumns(family, inputs).value))
  }

  /** For one arrangement, the two programs write the same key exactly if they make the same list. */
  lemma KeyIsList(columns: seq<Column>, inputs: nat, key: string, family: seq<Column>, logged: string)
    requires IsColumns(columns, inputs) && !Repeats(columns) && Encodes(BASE64_CSET, key, KeyBits(inputs, columns))
    requires LoggedKey(logged, family, inputs) && Arrangement(family, columns)
    ensures key == logged <==> SortedColumns(family, inputs) == Some(columns)
  {
    var sorted := SortedColumns(family, inputs).value;
    SortedMembers(family, inputs);
    SameCount(family, columns);
    ConcatInjective(sorted, columns, inputs);
    Base64Alphabet();
    EncodingIsInjective(BASE64_CSET, key, KeyBits(inputs, columns), logged, KeyBits(inputs, sorted));
    HeadCancels(BitsOf(inputs, 5) + BitsOf(|columns|, 5), Concat(columns), Concat(sorted));
  }

  lemma HeadCancels(head: seq<bool>, a: seq<bool>, b: seq<bool>)
    ensures head + a == head + b <==> a == b
  {
    assert (head + a)[|head|..] == a && (head + b)[|head|..] == b;
  }

  lemma SameCount(a: seq<Column>, b: seq<Column>)
    requires !Repeats(a) && !Repeats(b) && ColumnSet(a) == ColumnSet(b)
    ensures |a| == |b|
  {
    DistinctCount(a, ColumnSet(a));
    DistinctCount(b, ColumnSet(b));
  }

  /** Both programs write the same key for the same set of functions, if no two tables are too
      far apart; with repeated columns among the family, too. */
  lemma KeysAgree(table: TruthTable, inputs: nat, outputs: nat, order: seq<nat>, alias: map<nat, nat>, form: NormalForm,
                  key: string, family: seq<Column>, logged: string)
    requires IsNormalForm(table, inputs, outputs, order, alias, form) && !Gap(inputs, form.off)
    requires NoTwins(table, inputs, outputs, order, form.off)
    requires IsColumns(NewColumns(form.modified, form.numOutputs), form.numInputs)
    requires AllClose(NewColumns(form.modified, form.numOutputs), form.numInputs)
    requires var columns := NewColumns(form.modified, form.numOutputs);
      Encodes(BASE64_CSET, key, KeyBits(form.numInputs, columns)) && ColumnSet(family) == ColumnSet(columns)
    requires LoggedKey(logged, family, form.numInputs)
    ensures key == logged
  {
    var columns := NewColumns(form.modified, form.numOutputs);
    NewColumnsAreFrontList(table, inputs, outputs, order, alias, form);
    DownIffClose(columns, form.numInputs);
    SameList(columns, family, form.numInputs);
    Base64Alphabet();
    OneString(BASE64_CSET, key, logged, KeyBits(form.numInputs, columns));
  }

  /** And only then: otherwise some arrangement of the functions has another key. */
  lemma KeysAgreeOnlyIfClose(table: TruthTable, inputs: nat, outputs: nat, order: seq<nat>, alias: map<nat, nat>,
                             form: NormalForm, key: string) returns (family: seq<Column>)
    requires IsNormalForm(table, inputs, outputs, order, alias, form) && !Gap(inputs, form.off)
    requires NoTwins(table, inputs, outputs, order, form.off)
    requires IsColumns(NewColumns(form.modified, form.numOutputs), form.numInputs)
    requires !AllClose(NewColumns(form.modified, form.numOutputs), form.numInputs)
    requires Encodes(BASE64_CSET, key, KeyBits(form.numInputs, NewColumns(form.modified, form.numOutputs)))
    ensures IsColumns(family, form.numInputs) && SortedColumns(family, form.numInputs).Some?
    ensures Arrangement(family, NewColumns(form.modified, form.numOutputs))
    ensures forall logged: string :: LoggedKey(logged, family, form.numInputs) ==> key != logged
  {
    var columns := NewColumns(form.modified, form.numOutputs);
    NewColumnsAreFrontList(table, inputs, outputs, order, alias, form);
    ListsAgreeIffClose(columns, form.numInputs);
    FrontListDiffers(columns, form.numInputs);
    family :| IsColumns(family, form.numInputs) && Arrangement(family, columns)
      && SortedColumns(family, form.numInputs) != Some(columns);
    DifferentAreSorted(family, form.numInputs);
    forall logged: string | LoggedKey(logged, family, form.numInputs)
      ensures key != logged
    {
      KeyIsList(columns, form.numInputs, key, family, logged);
    }
  }

  lemma OneString(cset: string, s: string, t: string, bits: seq<bool>)
    requires Alphabet(cset) && Encodes(cset, s, bits) && Encodes(cset, t, bits)
    ensures s == t
  {
    EncodingIsInjective(cset, s, bits, t, bits);
    assert bits == bits;
  }
}
