/** When the output ordering makes a search key canonical: all arrangements of a family of truth
    tables get the same sorted list exactly if the wrapped comparison orders the family, as it
    does when all words are below 2^31. */
module CanonicalKeys {
  import opened Bits
  import opened BitStream
  import opened Networks
  import opened OutputOrder
  import opened Wrappers

  /** The 32-bit words of a column. */
  ghost function Table(c: Column): Words {
    Pack(c, 32)
  }

  function WordCount(inputs: nat): nat {
    (Pow2(inputs) + 31) / 32
  }

  ghost predicate IsColumns(columns: seq<Column>, inputs: nat) {
    forall i :: 0 <= i < |columns| ==> |columns[i]| == Pow2(inputs)
  }

  ghost function Tables(columns: seq<Column>): (tables: seq<Words>)
    ensures |tables| == |columns|
    ensures forall i :: 0 <= i < |columns| ==> tables[i] == Table(columns[i])
  {
    seq(|columns|, i requires 0 <= i < |columns| => Table(columns[i]))
  }

  lemma {:induction false} TableSize(bits: seq<bool>)
    ensures |Pack(bits, 32)| == (|bits| + 31) / 32
    decreases |bits|
  {
    if |bits| > 32 {
      TableSize(bits[32..]);
    }
  }

  lemma WordRange()
    ensures Pow2(32) == 0x1_0000_0000 && Pow2(31) == 0x8000_0000 && Pow2(16) == 0x1_0000
  {
    assert Pow2(8) == 0x100;
    Pow2Add(8, 8);
    Pow2Add(16, 16);
    assert 2 * Pow2(31) == Pow2(32);
  }

  lemma TableIsTable(c: Column, inputs: nat)
    requires |c| == Pow2(inputs)
    ensures IsTable(Table(c), WordCount(inputs))
    ensures inputs <= 4 ==> Small(Table(c))
  {
    TableSize(c);
    PackBound(c, 32);
    WordRange();
    if inputs <= 4 {
      Pow2Monotone(inputs, 4);
      assert Pow2(4) == 16;
      NumBound(c);
      Pow2Monotone(|c|, 16);
    }
  }

  lemma TablesAreFamily(columns: seq<Column>, inputs: nat)
    requires IsColumns(columns, inputs)
    ensures IsFamily(Tables(columns), WordCount(inputs))
    ensures inputs <= 4 ==> SmallFamily(Tables(columns), WordCount(inputs))
  {
    forall i | 0 <= i < |columns|
      ensures IsTable(Tables(columns)[i], WordCount(inputs))
      ensures inputs <= 4 ==> Small(Tables(columns)[i])
    {
      TableIsTable(columns[i], inputs);
    }
  }

  ghost function Chosen(columns: seq<Column>, order: seq<nat>): (chosen: seq<Column>)
    requires forall i :: 0 <= i < |order| ==> order[i] < |columns|
    ensures |chosen| == |order| && forall i :: 0 <= i < |order| ==> chosen[i] == columns[order[i]]
  {
    seq(|order|, i requires 0 <= i < |order| => columns[order[i]])
  }

  /** The columns in the order the key lists them; none if the sort gives up. */
  ghost function SortedColumns(columns: seq<Column>, inputs: nat): Option<seq<Column>>
    requires IsColumns(columns, inputs)
  {
    TablesAreFamily(columns, inputs);
    var r := SortFirst(Tables(columns), WordCount(inputs), |columns|);
    if r == None then None else Some(Chosen(columns, r.value))
  }

  ghost predicate Repeats(columns: seq<Column>) {
    exists i, j :: 0 <= i < j < |columns| && columns[i] == columns[j]
  }

  ghost function ColumnSet(columns: seq<Column>): set<Column> {
    set c | c in columns
  }

  /** All words of the columns' tables are below 2^31. */
  ghost predicate SmallColumns(columns: seq<Column>, inputs: nat) {
    SmallFamily(Tables(columns), WordCount(inputs))
  }

  /** The comparison is a linear order of the columns' tables. */
  ghost predicate OrderedColumns(columns: seq<Column>, inputs: nat) {
    Linear(Tables(columns), WordCount(inputs))
  }

  lemma SmallIsOrdered(columns: seq<Column>, inputs: nat)
    requires SmallColumns(columns, inputs)
    ensures OrderedColumns(columns, inputs)
  {
    SmallIsLinear(Tables(columns), WordCount(inputs));
  }

  // ---- What can be told from the columns ----

  /** Every 32nd row is 0. */
  ghost predicate TopRowsClear(c: Column) {
    forall t :: 0 <= t < |c| && t % 32 == 31 ==> !c[t]
  }

  /** A table has small words exactly if its column is 0 in every 32nd row. */
  lemma {:induction false} SmallIsTopClear(c: Column)
    ensures Small(Table(c)) <==> TopRowsClear(c)
    decreases |c|
  {
    WordRange();
    if |c| <= 32 {
      if c != [] {
        FirstWordSmall(c);
        assert Table(c) == [Num(c)] + [];
        SmallFirst(Num(c), []);
      }
    } else {
      SmallIsTopClear(c[32..]);
      FirstWordSmall(c[..32]);
      assert Table(c) == [Num(c[..32])] + Table(c[32..]);
      SmallFirst(Num(c[..32]), Table(c[32..]));
      TopRowsSplit(c);
    }
  }

  lemma SmallFirst(first: nat, rest: Words)
    ensures Small([first] + rest) <==> first < 0x8000_0000 && Small(rest)
  {
    var all := [first] + rest;
    if Small(all) {
      assert all[0] == first;
      forall w | 0 <= w < |rest|
        ensures rest[w] < 0x8000_0000
      {
        assert all[w + 1] == rest[w];
      }
    }
  }

  lemma TopRowsSplit(c: Column)
    requires |c| > 32
    ensures TopRowsClear(c) <==> !c[31] && TopRowsClear(c[32..])
  {
    if TopRowsClear(c) {
      forall t | 0 <= t < |c[32..]| && t % 32 == 31
        ensures !c[32..][t]
      {
        assert (t + 32) % 32 == 31 && !c[t + 32];
      }
    }
    if !c[31] && TopRowsClear(c[32..]) {
      forall t | 0 <= t < |c| && t % 32 == 31
        ensures !c[t]
      {
        if t != 31 {
          assert (t - 32) % 32 == 31 && !c[32..][t - 32];
        }
      }
    }
  }

  /** One word is small exactly if it has no 32nd bit or that bit is 0. */
  lemma FirstWordSmall(bits: seq<bool>)
    requires 0 < |bits| <= 32
    ensures Num(bits) < 0x8000_0000 <==> TopRowsClear(bits)
    ensures TopRowsClear(bits) <==> |bits| == 32 ==> !bits[31]
  {
    OnlyTopRow(bits);
    if |bits| == 32 {
      TopBit(bits);
    } else {
      WordRange();
      NumBound(bits);
      Pow2Monotone(|bits|, 31);
    }
  }

  lemma OnlyTopRow(bits: seq<bool>)
    requires |bits| <= 32
    ensures TopRowsClear(bits) <==> |bits| == 32 ==> !bits[31]
  {
    assert 31 % 32 == 31;
  }

  lemma TopBit(bits: seq<bool>)
    requires |bits| == 32
    ensures Num(bits) < 0x8000_0000 <==> !bits[31]
  {
    WordRange();
    NumAppend(bits[..31], [bits[31]]);
    assert bits == bits[..31] + [bits[31]];
    NumBound(bits[..31]);
    ShlIsProduct(Num([bits[31]]), 31);
  }

  // ---- Sorting a family ----

  lemma TableInjective(c: Column, d: Column)
    requires |c| == |d| && Table(c) == Table(d)
    ensures c == d
  {
    PackInjective(c, d, 32);
  }

  /** Different columns are always sorted. */
  lemma DifferentAreSorted(columns: seq<Column>, inputs: nat)
    requires IsColumns(columns, inputs) && !Repeats(columns)
    ensures SortedColumns(columns, inputs).Some?
  {
    TablesAreFamily(columns, inputs);
    var tables := Tables(columns);
    if SortFirst(tables, WordCount(inputs), |columns|) == None {
      FailsOnDuplicates(tables, WordCount(inputs), |columns|);
      var i, j :| 0 <= i < j < |columns| && tables[i] == tables[j];
      TableInjective(columns[i], columns[j]);
      assert false;
    }
  }

  /** The sort gives up on an ordered family exactly if a column is repeated. */
  lemma RecognisesRepeats(columns: seq<Column>, inputs: nat)
    requires IsColumns(columns, inputs) && OrderedColumns(columns, inputs)
    ensures SortedColumns(columns, inputs) == None <==> Repeats(columns)
  {
    var tables := Tables(columns);
    SortIsCorrect(tables, WordCount(inputs), |columns|);
    if !Repeats(columns) {
      DifferentAreSorted(columns, inputs);
    } else {
      var i, j :| 0 <= i < j < |columns| && columns[i] == columns[j];
      assert tables[i] == tables[j];
    }
  }

  /** Whatever the comparison does, the sorted list has the members of the family. */
  lemma SortedMembers(columns: seq<Column>, inputs: nat)
    requires IsColumns(columns, inputs) && SortedColumns(columns, inputs).Some?
    ensures var sorted := SortedColumns(columns, inputs).value;
      |sorted| == |columns| && IsColumns(sorted, inputs) && ColumnSet(sorted) == ColumnSet(columns)
  {
    TablesAreFamily(columns, inputs);
    SortIsPermutation(Tables(columns), WordCount(inputs), |columns|);
    ChosenMembers(columns, SortFirst(Tables(columns), WordCount(inputs), |columns|).value);
  }

  /** The sorted list of an ordered family is strictly descending. */
  lemma SortedDescends(columns: seq<Column>, inputs: nat)
    requires IsColumns(columns, inputs) && SortedColumns(columns, inputs).Some? && OrderedColumns(columns, inputs)
    ensures StrictlyDown(Tables(SortedColumns(columns, inputs).value), WordCount(inputs))
  {
    TablesAreFamily(columns, inputs);
    var tables, words := Tables(columns), WordCount(inputs);
    SortIsCorrect(tables, words, |columns|);
    var order := SortFirst(tables, words, |columns|).value;
    assert Tables(Chosen(columns, order)) == Arranged(tables, order);
  }

  lemma ChosenMembers(columns: seq<Column>, order: seq<nat>)
    requires forall i :: 0 <= i < |order| ==> order[i] < |columns|
    requires multiset(order) == Indexes(|columns|)
    ensures ColumnSet(Chosen(columns, order)) == ColumnSet(columns)
  {
    var sorted := Chosen(columns, order);
    forall c | c in columns
      ensures c in sorted
    {
      var i :| 0 <= i < |columns| && columns[i] == c;
      IndexesHold(|columns|, i);
      assert i in order;
      var k :| 0 <= k < |order| && order[k] == i;
      assert sorted[k] == c;
    }
  }

  /** Whether a family is ordered only depends on its members. */
  lemma OrderedBySet(a: seq<Column>, b: seq<Column>, inputs: nat)
    requires IsColumns(a, inputs) && IsColumns(b, inputs) && OrderedColumns(a, inputs) && ColumnSet(b) <= ColumnSet(a)
    ensures OrderedColumns(b, inputs)
  {
    TablesAreFamily(b, inputs);
    var s, t, words := Tables(a), Tables(b), WordCount(inputs);
    forall j | 0 <= j < |t|
      ensures t[j] in s
    {
      assert b[j] in ColumnSet(b);
      var i :| 0 <= i < |a| && a[i] == b[j];
      assert s[i] == t[j];
    }
    LinearBySet(s, t, words);
  }

  lemma SortedAgree(a: seq<Column>, b: seq<Column>, inputs: nat)
    requires IsColumns(a, inputs) && IsColumns(b, inputs) && SortedColumns(a, inputs).Some?
      && SortedColumns(b, inputs).Some?
    ensures SortedColumns(a, inputs) == SortedColumns(b, inputs) ==> ColumnSet(a) == ColumnSet(b)
    ensures ColumnSet(a) == ColumnSet(b) && OrderedColumns(a, inputs) ==> SortedColumns(a, inputs) == SortedColumns(b, inputs)
  {
    SortedMembers(a, inputs);
    SortedMembers(b, inputs);
    if ColumnSet(a) == ColumnSet(b) && OrderedColumns(a, inputs) {
      OrderedBySet(a, b, inputs);
      SortedDescends(a, inputs);
      SortedDescends(b, inputs);
      DescendingAgree(SortedColumns(a, inputs).value, SortedColumns(b, inputs).value, inputs);
    }
  }

  /** A set of columns has one strictly descending list. */
  lemma DescendingAgree(s: seq<Column>, t: seq<Column>, inputs: nat)
    requires IsColumns(s, inputs) && IsColumns(t, inputs) && ColumnSet(s) == ColumnSet(t)
    requires StrictlyDown(Tables(s), WordCount(inputs)) && StrictlyDown(Tables(t), WordCount(inputs))
    ensures s == t
  {
    SameTableSets(s, t);
    DescendingIsUnique(Tables(s), Tables(t), WordCount(inputs));
    assert |s| == |Tables(s)| == |Tables(t)| == |t|;
    forall i | 0 <= i < |s|
      ensures s[i] == t[i]
    {
      assert Tables(s)[i] == Tables(t)[i];
      TableInjective(s[i], t[i]);
    }
  }

  lemma SameTableSets(s: seq<Column>, t: seq<Column>)
    requires ColumnSet(s) == ColumnSet(t)
    ensures Members(Tables(s)) == Members(Tables(t))
  {
    TableMembers(s, t);
    TableMembers(t, s);
  }

  lemma TableMembers(s: seq<Column>, t: seq<Column>)
    requires ColumnSet(s) <= ColumnSet(t)
    ensures Members(Tables(s)) <= Members(Tables(t))
  {
    forall w | w in Tables(s)
      ensures w in Tables(t)
    {
      var i :| 0 <= i < |s| && Tables(s)[i] == w;
      assert s[i] in ColumnSet(s);
      var j :| 0 <= j < |t| && t[j] == s[i];
      assert Tables(t)[j] == w;
    }
  }

  // ---- Exactly when the sort is canonical ----

  /** All arrangements of the columns are sorted into the same list. */
  ghost predicate SortIsCanonical(columns: seq<Column>, inputs: nat)
    requires IsColumns(columns, inputs)
  {
    forall b: seq<Column> :: IsColumns(b, inputs) && Arrangement(b, columns) ==>
      SortedColumns(b, inputs) == SortedColumns(columns, inputs)
  }

  ghost predicate Arrangement(b: seq<Column>, columns: seq<Column>) {
    !Repeats(b) && ColumnSet(b) == ColumnSet(columns)
  }

  lemma OrderedIsCanonical(columns: seq<Column>, inputs: nat)
    requires IsColumns(columns, inputs) && !Repeats(columns) && OrderedColumns(columns, inputs)
    ensures SortIsCanonical(columns, inputs)
  {
    DifferentAreSorted(columns, inputs);
    forall b: seq<Column> | IsColumns(b, inputs) && Arrangement(b, columns)
      ensures SortedColumns(b, inputs) == SortedColumns(columns, inputs)
    {
      DifferentAreSorted(b, inputs);
      SortedAgree(columns, b, inputs);
    }
  }

  /** The other columns, in their order. */
  ghost function Others(columns: seq<Column>, skip: set<Column>): (rest: seq<Column>)
    ensures forall c :: c in rest <==> c in columns && c !in skip
  {
    if columns == [] then []
    else
      var last := columns[|columns| - 1];
      var front := Others(columns[..|columns| - 1], skip);
      assert forall c :: c in columns <==> c in columns[..|columns| - 1] || c == last;
      if last in skip then front else front + [last]
  }

  lemma {:induction false} OthersDiffer(columns: seq<Column>, skip: set<Column>)
    requires !Repeats(columns)
    ensures !Repeats(Others(columns, skip))
    decreases |columns|
  {
    if columns != [] {
      var n := |columns| - 1;
      var front, last := columns[..n], columns[n];
      assert columns == front + [last];
      FrontDiffers(front, last);
      OthersDiffer(front, skip);
      if last !in skip {
        LastDiffers(Others(front, skip), last);
      }
    }
  }

  lemma FrontDiffers(front: seq<Column>, last: Column)
    requires !Repeats(front + [last])
    ensures !Repeats(front) && last !in front
  {
    var all := front + [last];
    forall i, j | 0 <= i < j < |front|
      ensures front[i] != front[j]
    {
      assert all[i] != all[j];
    }
    forall i | 0 <= i < |front|
      ensures front[i] != last
    {
      assert all[i] != all[|front|];
    }
  }

  lemma LastDiffers(front: seq<Column>, last: Column)
    requires !Repeats(front) && last !in front
    ensures !Repeats(front + [last])
  {
    var all := front + [last];
    forall i, j | 0 <= i < j < |all|
      ensures all[i] != all[j]
    {
      assert all[i] == front[i];
      assert j < |front| ==> all[j] == front[j];
    }
  }

  /** Some of the columns first, then the others. */
  lemma FirstThese(columns: seq<Column>, these: seq<Column>, inputs: nat) returns (b: seq<Column>)
    requires IsColumns(columns, inputs) && !Repeats(columns) && !Repeats(these)
      && ColumnSet(these) <= ColumnSet(columns)
    ensures these <= b && IsColumns(b, inputs) && Arrangement(b, columns)
  {
    var rest := Others(columns, ColumnSet(these));
    OthersDiffer(columns, ColumnSet(these));
    b := these + rest;
    forall c
      ensures c in b <==> c in columns
    {
      assert c in these ==> c in ColumnSet(these);
    }
    forall i | 0 <= i < |b|
      ensures |b[i]| == Pow2(inputs)
    {
      assert b[i] in b;
    }
    forall i, j | 0 <= i < j < |b|
      ensures b[i] != b[j]
    {
      if i < |these| {
        assert these[i] in ColumnSet(these) && (j < |these| ==> these[i] != these[j]);
        assert j >= |these| ==> rest[j - |these|] in rest;
      } else {
        assert rest[i - |these|] != rest[j - |these|];
      }
    }
  }

  ghost predicate ColumnBefore(s: seq<Column>, c: Column, d: Column) {
    exists i, j :: 0 <= i < j < |s| && s[i] == c && s[j] == d
  }

  /** What is in order among the first columns is in order in the end. */
  lemma StaysBefore(b: seq<Column>, inputs: nat, m: nat, p: nat, q: nat)
    requires IsColumns(b, inputs) && SortedColumns(b, inputs).Some? && m <= |b|
    requires IsFamily(Tables(b), WordCount(inputs)) && SortFirst(Tables(b), WordCount(inputs), m).Some?
    requires Before(SortFirst(Tables(b), WordCount(inputs), m).value, p, q) && p < |b| && q < |b|
    ensures ColumnBefore(SortedColumns(b, inputs).value, b[p], b[q])
  {
    SortKeepsBefore(Tables(b), WordCount(inputs), m, |b|, p, q);
    var order := SortFirst(Tables(b), WordCount(inputs), |b|).value;
    var i, j :| 0 <= i < j < |order| && order[i] == p && order[j] == q;
    assert Chosen(b, order)[i] == b[p] && Chosen(b, order)[j] == b[q];
  }

  lemma SortedDiffer(b: seq<Column>, inputs: nat, c: Column, d: Column)
    requires IsColumns(b, inputs) && !Repeats(b) && SortedColumns(b, inputs).Some?
    requires ColumnBefore(SortedColumns(b, inputs).value, c, d)
    ensures !ColumnBefore(SortedColumns(b, inputs).value, d, c)
  {
    TablesAreFamily(b, inputs);
    var order := SortFirst(Tables(b), WordCount(inputs), |b|).value;
    SortIsPermutation(Tables(b), WordCount(inputs), |b|);
    var s := Chosen(b, order);
    if ColumnBefore(s, d, c) {
      var i, j :| 0 <= i < j < |s| && s[i] == c && s[j] == d;
      var k, l :| 0 <= k < l < |s| && s[k] == d && s[l] == c;
      OnePlace(b, order, i, l);
      OnePlace(b, order, j, k);
      assert false;
    }
  }

  /** A column has one place. */
  lemma OnePlace(b: seq<Column>, order: seq<nat>, i: nat, j: nat)
    requires multiset(order) == Indexes(|b|) && !Repeats(b) && i < |order| && j < |order|
    requires (forall k :: 0 <= k < |order| ==> order[k] < |b|) && b[order[i]] == b[order[j]]
    ensures i == j
  {
    assert order[i] == order[j];
    IndexesHold(|b|, order[i]);
    if i != j {
      Twice(order, if i < j then i else j, if i < j then j else i);
    }
  }

  lemma Twice(s: seq<nat>, i: nat, j: nat)
    requires i < j < |s| && s[i] == s[j]
    ensures multiset(s)[s[i]] >= 2
  {
    assert s == s[..j] + s[j..];
    assert multiset(s) == multiset(s[..j]) + multiset(s[j..]);
    assert s[..j][i] in multiset(s[..j]) && s[j..][0] in multiset(s[j..]);
  }

  /** Two arrangements that start differently enough are sorted differently. */
  lemma NotCanonical(columns: seq<Column>, inputs: nat, a: seq<Column>, b: seq<Column>, c: Column, d: Column)
    requires IsColumns(columns, inputs) && !Repeats(columns)
    requires IsColumns(a, inputs) && Arrangement(a, columns) && IsColumns(b, inputs) && Arrangement(b, columns)
    requires SortedColumns(a, inputs).Some? ==> ColumnBefore(SortedColumns(a, inputs).value, c, d)
    requires SortedColumns(b, inputs).Some? ==> ColumnBefore(SortedColumns(b, inputs).value, d, c)
    ensures !SortIsCanonical(columns, inputs)
  {
    DifferentAreSorted(a, inputs);
    if SortIsCanonical(columns, inputs) {
      assert SortedColumns(a, inputs) == SortedColumns(b, inputs);
      SortedDiffer(a, inputs, c, d);
      assert false;
    }
  }

  /** Two different columns of which neither is above the other. */
  ghost predicate Tied(x: Column, y: Column, inputs: nat) {
    && |x| == |y| == Pow2(inputs) && IsTable(Table(x), WordCount(inputs)) && IsTable(Table(y), WordCount(inputs))
    && !Decided(Table(x), Table(y), WordCount(inputs))
  }

  /** The later one of two tied columns goes first. */
  lemma TieBreaks(columns: seq<Column>, inputs: nat, x: Column, y: Column)
    requires IsColumns(columns, inputs) && !Repeats(columns) && {x, y} <= ColumnSet(columns) && Tied(x, y, inputs)
    ensures !SortIsCanonical(columns, inputs)
  {
    var a := FirstThese(columns, [x, y], inputs);
    var b := FirstThese(columns, [y, x], inputs);
    assert a[0] == x && a[1] == y && b[0] == y && b[1] == x;
    TieOrder(a, inputs);
    TieOrder(b, inputs);
    NotCanonical(columns, inputs, a, b, y, x);
  }

  lemma TieOrder(a: seq<Column>, inputs: nat)
    requires IsColumns(a, inputs) && |a| >= 2 && Tied(a[0], a[1], inputs)
    ensures SortedColumns(a, inputs).Some? ==> ColumnBefore(SortedColumns(a, inputs).value, a[1], a[0])
  {
    TablesAreFamily(a, inputs);
    var tables, words := Tables(a), WordCount(inputs);
    CompareZero(tables[0], tables[1], words, words);
    TwoSteps(tables, words);
    if SortedColumns(a, inputs).Some? {
      assert [1, 0][0] == 1 && [1, 0][1] == 0;
      StaysBefore(a, inputs, 2, 1, 0);
    }
  }

  /** Three columns in a circle: each of them can be made the first. */
  lemma CircleBreaks(columns: seq<Column>, inputs: nat, x: Column, y: Column, z: Column)
    requires IsColumns(columns, inputs) && !Repeats(columns) && {x, y, z} <= ColumnSet(columns) && x != y && y != z
      && x != z
    requires InCircle(x, y, z, inputs)
    ensures !SortIsCanonical(columns, inputs)
  {
    var a := FirstThese(columns, [x, y, z], inputs);
    var b := FirstThese(columns, [y, z, x], inputs);
    assert a[0] == x && a[1] == y && a[2] == z && b[0] == y && b[1] == z && b[2] == x;
    CircleOrder(a, inputs);
    CircleOrder(b, inputs);
    NotCanonical(columns, inputs, a, b, x, y);
  }

  /** Each of the three is above the next one. */
  ghost predicate InCircle(x: Column, y: Column, z: Column, inputs: nat) {
    && |x| == |y| == |z| == Pow2(inputs)
    && IsTable(Table(x), WordCount(inputs)) && IsTable(Table(y), WordCount(inputs)) && IsTable(Table(z), WordCount(inputs))
    && Above(Table(x), Table(y), WordCount(inputs)) && Above(Table(y), Table(z), WordCount(inputs))
    && Above(Table(z), Table(x), WordCount(inputs))
  }

  lemma CircleOrder(a: seq<Column>, inputs: nat)
    requires IsColumns(a, inputs) && |a| >= 3 && InCircle(a[0], a[1], a[2], inputs)
    ensures SortedColumns(a, inputs).Some? ==>
      ColumnBefore(SortedColumns(a, inputs).value, a[0], a[1]) && ColumnBefore(SortedColumns(a, inputs).value, a[0], a[2])
      && ColumnBefore(SortedColumns(a, inputs).value, a[1], a[2])
  {
    TablesAreFamily(a, inputs);
    ThreeSteps(Tables(a), WordCount(inputs));
    if SortedColumns(a, inputs).Some? {
      assert [0, 1, 2][0] == 0 && [0, 1, 2][1] == 1 && [0, 1, 2][2] == 2;
      StaysBefore(a, inputs, 3, 0, 1);
      StaysBefore(a, inputs, 3, 0, 2);
      StaysBefore(a, inputs, 3, 1, 2);
    }
  }

  lemma Unordered(columns: seq<Column>, inputs: nat)
    requires IsColumns(columns, inputs) && !Repeats(columns) && !OrderedColumns(columns, inputs)
    ensures !SortIsCanonical(columns, inputs)
  {
    TablesAreFamily(columns, inputs);
    var i, j, k := WhereItBreaks(Tables(columns), WordCount(inputs));
    if Decided(Tables(columns)[i], Tables(columns)[k], WordCount(inputs)) {
      BrokenChainBreaks(columns, inputs, i, j, k);
    } else {
      UndecidedBreaks(columns, inputs, i, k);
    }
  }

  lemma UndecidedBreaks(columns: seq<Column>, inputs: nat, i: nat, j: nat)
    requires IsColumns(columns, inputs) && !Repeats(columns) && i < |columns| && j < |columns|
    requires IsFamily(Tables(columns), WordCount(inputs))
    requires !Decided(Tables(columns)[i], Tables(columns)[j], WordCount(inputs))
    ensures !SortIsCanonical(columns, inputs)
  {
    assert IsTable(Tables(columns)[i], WordCount(inputs)) && IsTable(Tables(columns)[j], WordCount(inputs));
    assert columns[i] in ColumnSet(columns) && columns[j] in ColumnSet(columns);
    TieBreaks(columns, inputs, columns[i], columns[j]);
  }

  lemma BrokenChainBreaks(columns: seq<Column>, inputs: nat, i: nat, j: nat, k: nat)
    requires IsColumns(columns, inputs) && !Repeats(columns) && i < |columns| && j < |columns| && k < |columns|
    requires IsFamily(Tables(columns), WordCount(inputs))
    requires Decided(Tables(columns)[i], Tables(columns)[k], WordCount(inputs))
    requires !Chains(Tables(columns)[i], Tables(columns)[j], Tables(columns)[k], WordCount(inputs))
    ensures !SortIsCanonical(columns, inputs)
  {
    var x, y, z := columns[i], columns[j], columns[k];
    assert IsTable(Tables(columns)[i], WordCount(inputs)) && IsTable(Tables(columns)[j], WordCount(inputs))
      && IsTable(Tables(columns)[k], WordCount(inputs));
    BrokenChain(x, y, z, inputs);
    assert {x, y, z} <= ColumnSet(columns);
    CircleBreaks(columns, inputs, x, y, z);
  }

  lemma BrokenChain(x: Column, y: Column, z: Column, inputs: nat)
    requires |x| == |y| == |z| == Pow2(inputs)
    requires IsTable(Table(x), WordCount(inputs)) && IsTable(Table(y), WordCount(inputs))
      && IsTable(Table(z), WordCount(inputs))
    requires Decided(Table(x), Table(z), WordCount(inputs)) && !Chains(Table(x), Table(y), Table(z), WordCount(inputs))
    ensures x != y && y != z && x != z && InCircle(x, y, z, inputs)
  {
    var words := WordCount(inputs);
    NotBothAbove(Table(x), Table(y), words, words);
    NotSelfAbove(Table(x), words);
    NotSelfAbove(Table(y), words);
  }

  lemma NotSelfAbove(a: Words, words: nat)
    requires IsTable(a, words)
    ensures !Above(a, a, words)
  {
    CompareZero(a, a, words, words);
  }

  /** A set of columns has one key, whatever the arrangement, exactly if the comparison orders it. */
  lemma CanonicalIffOrdered(columns: seq<Column>, inputs: nat)
    requires IsColumns(columns, inputs) && !Repeats(columns)
    ensures SortIsCanonical(columns, inputs) <==> OrderedColumns(columns, inputs)
  {
    if OrderedColumns(columns, inputs) {
      OrderedIsCanonical(columns, inputs);
    } else {
      Unordered(columns, inputs);
    }
  }
}
