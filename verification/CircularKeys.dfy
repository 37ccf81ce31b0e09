/** Where the output ordering goes round in a circle: from 5 inputs on, the generator writes a
    network whose outputs do not have one key. */
module CircularKeys {
  import opened Bits
  import opened BitStream
  import opened Networks
  import opened Renumbering
  import opened Odometer
  import opened GateBuilder
  import opened Optimum
  import opened OutputOrder
  import opened CanonicalKeys
  import opened Extraction
  import opened Catalogue
  import opened KeyAgreement
  import opened Wrappers

  // ---- The network ----

  /** Gate 0 is NAND(x0, x1), gate 1 NAND(x3, x4), gate 2 NAND(x4, gate 0), gate 3 NAND(x2, gate 2);
      every further gate inverts a further input. */
  function CircleGate(inputs: nat, g: nat): Gate {
    if g == 0 then Gate(0, 1)
    else if g == 1 then Gate(3, 4)
    else if g == 2 then Gate(4, inputs)
    else if g == 3 then Gate(2, inputs + 2)
    else Gate(g + 1, g + 1)
  }

  function CircleNet(inputs: nat): (net: Net)
    requires inputs >= 5
    ensures |net| == inputs - 1 && forall g :: 0 <= g < |net| ==> net[g] == CircleGate(inputs, g)
  {
    seq(inputs - 1, g requires 0 <= g => CircleGate(inputs, g))
  }

  /** What gate `g` gives in row `t`. */
  ghost predicate CircleValue(t: nat, g: nat) {
    if g == 0 then !(Bit(t, 0) && Bit(t, 1))
    else if g == 1 then !(Bit(t, 3) && Bit(t, 4))
    else if g == 2 then !(Bit(t, 4) && CircleValue(t, 0))
    else if g == 3 then !(Bit(t, 2) && CircleValue(t, 2))
    else !Bit(t, g + 1)
  }

  lemma CircleIsTopological(inputs: nat)
    requires inputs >= 5
    ensures Topological(CircleNet(inputs), inputs)
  {
  }

  lemma CircleValues(inputs: nat, t: nat, g: nat)
    requires inputs >= 5 && g < inputs - 1
    ensures Topological(CircleNet(inputs), inputs)
    ensures Value(CircleNet(inputs), inputs, t, inputs + g) == CircleValue(t, g)
  {
    CircleIsTopological(inputs);
    if g == 2 {
      CircleValues(inputs, t, 0);
    } else if g == 3 {
      CircleValues(inputs, t, 2);
    }
  }

  ghost function CircleColumn(inputs: nat, g: nat): (c: Column)
    requires inputs >= 5 && g < inputs - 1
    ensures |c| == Pow2(inputs) && forall t :: 0 <= t < |c| ==> c[t] == CircleValue(t, g)
  {
    CircleIsTopological(inputs);
    forall t: nat {
      CircleValues(inputs, t, g);
    }
    GateColumn(CircleNet(inputs), inputs, g)
  }

  // ---- The generator accepts it ----

  lemma CircleIsCanonical(inputs: nat)
    requires inputs >= 5
    ensures Canonical(CircleNet(inputs), inputs) && DistinctPairs(CircleNet(inputs))
  {
  }

  lemma CircleReadsAll(inputs: nat)
    requires inputs >= 5
    ensures AllInputsRead(Flatten(CircleNet(inputs)), inputs)
  {
    var net := CircleNet(inputs);
    forall i: nat | i < inputs
      ensures InputRead(Flatten(net), i)
    {
      FlattenHolds(net, if i <= 1 then 0 else if i == 2 then 3 else if i <= 4 then 1 else i - 1);
    }
  }

  /** A row in which gate `g` is 0. */
  function ZeroRow(g: nat): nat {
    if g == 0 then 3 else if g == 1 then 24 else if g == 2 then 16 else if g == 3 then 4 else Pow2(g + 1)
  }

  lemma SingleBit(m: nat, k: nat)
    ensures Bit(Pow2(m), k) <==> k == m
  {
    HighBitClear(0, m);
    SetClearBit(0, m, k);
    HighBitClear(0, k);
  }

  lemma ZeroRowIsZero(g: nat)
    ensures !CircleValue(ZeroRow(g), g)
  {
    if g >= 4 {
      SingleBit(g + 1, g + 1);
    } else if g == 0 {
      assert Bit(3, 0) && Bit(3, 1);
    } else if g == 1 {
      assert Bit(24, 3) && Bit(24, 4);
    } else if g == 2 {
      assert Bit(16, 4) && !Bit(16, 0);
    } else {
      assert Bit(4, 2) && !Bit(4, 4);
    }
  }

  lemma RowZero(g: nat)
    ensures CircleValue(0, g)
  {
    HighBitClear(0, if g == 0 then 0 else if g == 1 then 3 else if g == 2 then 4 else if g == 3 then 2 else g + 1);
  }

  /** No gate is constant or a copy of an input. */
  lemma CircleIsProper(inputs: nat, g: nat)
    requires inputs >= 5 && g < inputs - 1
    ensures Proper(CircleColumn(inputs, g), inputs)
  {
    var c, z := CircleColumn(inputs, g), ZeroRow(g);
    assert Pow2(5) == 32;
    Pow2Monotone(5, inputs);
    if g >= 4 {
      Pow2Monotone(g + 2, inputs);
      assert Pow2(g + 2) == 2 * Pow2(g + 1);
    }
    ZeroRowIsZero(g);
    RowZero(g);
    assert c[0] && !c[z];
    forall m | 0 <= m < inputs
      ensures !CopyOf(c, m)
    {
      HighBitClear(0, m);
      assert c[0] != Bit(0, m);
    }
  }

  lemma CircleIsAcceptable(inputs: nat)
    requires inputs >= 5
    ensures Acceptable(Flatten(CircleNet(inputs)), inputs, inputs - 1)
  {
    var net := CircleNet(inputs);
    NetOfFlatten(net);
    CircleIsTopological(inputs);
    RangeIsTopological(Flatten(net), inputs);
    CircleIsCanonical(inputs);
    CircleReadsAll(inputs);
    forall g: nat | g < |net|
      ensures !NotNot(net, inputs, g) && !Trivial(net, inputs, g)
    {
      CircleIsProper(inputs, g);
      assert CircleColumn(inputs, g) == GateColumn(net, inputs, g);
    }
  }

  // ---- Its record, and the outputs that are tried ----

  ghost function CircleRecord(inputs: nat): (record: Record)
    requires inputs >= 5
    ensures FaithfulRecord(record, inputs, inputs - 1)
    ensures IsRecord(record, inputs, inputs - 1) && record.gateInputs == Flatten(CircleNet(inputs))
  {
    CircleIsTopological(inputs);
    NetOfFlatten(CircleNet(inputs));
    Record(Flatten(CircleNet(inputs)), RowMasks(CircleNet(inputs), inputs))
  }

  /** All gates but the first one. */
  function CircleOutputs(inputs: nat): (outputs: seq<nat>)
    requires inputs >= 5
    ensures |outputs| == inputs - 2 && forall i :: 0 <= i < |outputs| ==> outputs[i] == i + 1
  {
    seq(inputs - 2, i requires 0 <= i => i + 1)
  }

  ghost function CircleColumns(inputs: nat): (columns: seq<Column>)
    requires inputs >= 5
    ensures |columns| == inputs - 2 && IsColumns(columns, inputs)
    ensures forall i :: 0 <= i < |columns| ==> columns[i] == CircleColumn(inputs, i + 1)
  {
    seq(inputs - 2, i requires 0 <= i < inputs - 2 => CircleColumn(inputs, i + 1))
  }

  lemma RecordedCircle(inputs: nat)
    requires inputs >= 5
    ensures OutputColumns(CircleRecord(inputs), CircleOutputs(inputs)) == CircleColumns(inputs)
  {
    var net, record, outputs := CircleNet(inputs), CircleRecord(inputs), CircleOutputs(inputs);
    NetOfFlatten(net);
    forall i | 0 <= i < |outputs|
      ensures OutputColumns(record, outputs)[i] == CircleColumns(inputs)[i]
    {
      FaithfulColumn(record, inputs, inputs - 1, i + 1);
      assert CircleColumn(inputs, i + 1) == GateColumn(net, inputs, i + 1);
    }
  }

  /** A row that tells two of the outputs apart. */
  lemma CircleDiffers(inputs: nat, g: nat, h: nat)
    requires inputs >= 5 && 1 <= g < h < inputs - 1
    ensures CircleColumn(inputs, g) != CircleColumn(inputs, h)
  {
    var c, d, z := CircleColumn(inputs, g), CircleColumn(inputs, h), ZeroRow(h);
    assert Pow2(5) == 32;
    Pow2Monotone(5, inputs);
    ZeroRowIsZero(h);
    if h >= 4 {
      Pow2Monotone(h + 2, inputs);
      assert Pow2(h + 2) == 2 * Pow2(h + 1);
      OtherGates(g, h);
    } else if h == 2 {
      assert !Bit(16, 3);
    } else {
      assert !Bit(4, 3) && !Bit(4, 4);
    }
    assert c[z] && !d[z];
  }

  lemma OtherGates(g: nat, h: nat)
    requires 1 <= g < h && h >= 4
    ensures CircleValue(Pow2(h + 1), g)
  {
    SingleBit(h + 1, if g == 1 then 3 else if g == 2 then 4 else if g == 3 then 2 else g + 1);
  }

  lemma CircleHasNoRepeats(inputs: nat)
    requires inputs >= 5
    ensures !Repeats(CircleColumns(inputs))
  {
    forall i, j | 0 <= i < j < inputs - 2
      ensures CircleColumns(inputs)[i] != CircleColumns(inputs)[j]
    {
      CircleDiffers(inputs, i + 1, j + 1);
    }
  }

  lemma CircleIsWanted(inputs: nat)
    requires inputs >= 5
    ensures Wanted(CircleRecord(inputs), inputs, inputs - 1, CircleOutputs(inputs))
  {
    var record, outputs := CircleRecord(inputs), CircleOutputs(inputs);
    RecordedCircle(inputs);
    CircleHasNoRepeats(inputs);
    DifferentAreSorted(CircleColumns(inputs), inputs);
    forall g: nat | g < inputs - 1
      ensures Feeds(record, inputs, g) || g in outputs
    {
      if g == 0 {
        FlattenHolds(CircleNet(inputs), 2);
      } else {
        assert outputs[g - 1] == g;
      }
    }
  }

  // ---- The three tables that go round ----

  /** The last 32 rows have all combinations of the first five inputs. */
  lemma LastRows(inputs: nat, k: nat, m: nat)
    requires inputs >= 5 && k < 32 && m <= 4
    ensures Pow2(inputs) >= 32 && Bit(Pow2(inputs) - 32 + k, m) == Bit(k, m)
  {
    Pow2Add(5, inputs - 5);
    assert Pow2(5) == 32;
    LowBits(Pow2(inputs) - 32 + k, k, 5, Pow2(inputs - 5) - 1, m);
  }

  /** Bits below `j` do not see a multiple of 2^j. */
  lemma {:induction false} LowBits(t: nat, k: nat, j: nat, q: nat, m: nat)
    requires t == k + Pow2(j) * q && m < j
    ensures Bit(t, m) == Bit(k, m)
    decreases m
  {
    var r := Pow2(j - 1) * q;
    assert t == k + 2 * r;
    if m > 0 {
      assert t / 2 == k / 2 + r;
      LowBits(t / 2, k / 2, j - 1, q, m - 1);
    }
  }

  lemma NextHighBit(bits: seq<bool>, n: nat, p: nat)
    requires n < |bits| && p == Pow2(n)
    ensures Num(bits[..n + 1]) == Num(bits[..n]) + if bits[n] then p else 0
  {
    TopDigit(bits[..n + 1]);
    assert bits[..n + 1][..n] == bits[..n];
  }

  lemma HighPowers()
    ensures Pow2(27) == 0x0800_0000 && Pow2(28) == 0x1000_0000 && Pow2(29) == 0x2000_0000
    ensures Pow2(30) == 0x4000_0000 && Pow2(31) == 0x8000_0000
  {
    WordRange();
  }

  /** A word by its highest five bits. */
  lemma HighBits(bits: seq<bool>)
    requires |bits| == 32
    ensures var high := (if bits[31] then 0x8000_0000 else 0) + (if bits[30] then 0x4000_0000 else 0)
        + (if bits[29] then 0x2000_0000 else 0) + (if bits[28] then 0x1000_0000 else 0)
        + if bits[27] then 0x0800_0000 else 0;
      high <= Num(bits) < high + 0x0800_0000
  {
    hide Num;
    HighPowers();
    NextHighBit(bits, 31, 0x8000_0000);
    NextHighBit(bits, 30, 0x4000_0000);
    NextHighBit(bits, 29, 0x2000_0000);
    NextHighBit(bits, 28, 0x1000_0000);
    NextHighBit(bits, 27, 0x0800_0000);
    NumBound(bits[..27]);
    assert bits[..32] == bits;
  }

  ghost function TopRows(c: Column): (top: seq<bool>)
    requires |c| >= 32
    ensures |top| == 32 && forall k :: 0 <= k < 32 ==> top[k] == c[|c| - 32 + k]
  {
    c[|c| - 32..]
  }

  lemma TopWordOf(c: Column, inputs: nat)
    requires |c| == Pow2(inputs) && inputs >= 5
    ensures |c| >= 32 && |Table(c)| == WordCount(inputs) > 0 && Table(c)[WordCount(inputs) - 1] == Num(TopRows(c))
  {
    TableSize(c);
    RowsAndWords(inputs);
    var w := WordCount(inputs) - 1;
    TableWord(c, w);
    assert 32 * w == |c| - 32 && GroupEnd(w, |c|) == |c|;
    assert c[32 * w..GroupEnd(w, |c|)] == TopRows(c);
  }

  /** The top words of gates 1, 2 and 3. */
  lemma TopWords(inputs: nat) returns (u: nat, w: nat, v: nat)
    requires inputs >= 5
    ensures Pow2(inputs) >= 32
    ensures u == Num(TopRows(CircleColumn(inputs, 1))) < 0x0800_0000
    ensures 0x8800_0000 <= w == Num(TopRows(CircleColumn(inputs, 2))) < 0x9000_0000
    ensures 0x4000_0000 <= v == Num(TopRows(CircleColumn(inputs, 3))) < 0x8000_0000
  {
    u := FirstTop(inputs);
    w := SecondTop(inputs);
    v := ThirdTop(inputs);
  }

  ghost predicate LastRowsBits(inputs: nat, k: nat)
    requires Pow2(inputs) >= 32
  {
    var t := Pow2(inputs) - 32 + k;
    && Bit(t, 0) == Bit(k, 0) && Bit(t, 1) == Bit(k, 1) && Bit(t, 2) == Bit(k, 2)
    && Bit(t, 3) == Bit(k, 3) && Bit(t, 4) == Bit(k, 4)
  }

  lemma LastRowBits(inputs: nat, k: nat)
    requires inputs >= 5 && k < 32
    ensures Pow2(inputs) >= 32 && LastRowsBits(inputs, k)
  {
    LastRows(inputs, k, 0);
    LastRows(inputs, k, 1);
    LastRows(inputs, k, 2);
    LastRows(inputs, k, 3);
    LastRows(inputs, k, 4);
  }

  lemma SameValue(t: nat, k: nat, g: nat)
    requires 1 <= g <= 3
    requires Bit(t, 0) == Bit(k, 0) && Bit(t, 1) == Bit(k, 1) && Bit(t, 2) == Bit(k, 2)
    requires Bit(t, 3) == Bit(k, 3) && Bit(t, 4) == Bit(k, 4)
    ensures CircleValue(t, g) == CircleValue(k, g)
  {
  }

  /** What gates 1 to 3 give in the last rows. */
  lemma LastValues(inputs: nat, k: nat, g: nat)
    requires inputs >= 5 && k < 32 && 1 <= g <= 3
    ensures Pow2(inputs) >= 32 && TopRows(CircleColumn(inputs, g))[k] == CircleValue(k, g)
  {
    LastRowBits(inputs, k);
    SameValue(Pow2(inputs) - 32 + k, k, g);
  }

  lemma FirstTop(inputs: nat) returns (u: nat)
    requires inputs >= 5
    ensures Pow2(inputs) >= 32 && u == Num(TopRows(CircleColumn(inputs, 1))) < 0x0800_0000
  {
    LastValues(inputs, 31, 1);
    LastValues(inputs, 30, 1);
    LastValues(inputs, 29, 1);
    LastValues(inputs, 28, 1);
    LastValues(inputs, 27, 1);
    HighBits(TopRows(CircleColumn(inputs, 1)));
    u := Num(TopRows(CircleColumn(inputs, 1)));
  }

  lemma SecondTop(inputs: nat) returns (w: nat)
    requires inputs >= 5
    ensures Pow2(inputs) >= 32 && 0x8800_0000 <= w == Num(TopRows(CircleColumn(inputs, 2))) < 0x9000_0000
  {
    LastValues(inputs, 31, 2);
    LastValues(inputs, 30, 2);
    LastValues(inputs, 29, 2);
    LastValues(inputs, 28, 2);
    LastValues(inputs, 27, 2);
    HighBits(TopRows(CircleColumn(inputs, 2)));
    w := Num(TopRows(CircleColumn(inputs, 2)));
  }

  lemma ThirdTop(inputs: nat) returns (v: nat)
    requires inputs >= 5
    ensures Pow2(inputs) >= 32 && 0x4000_0000 <= v == Num(TopRows(CircleColumn(inputs, 3))) < 0x8000_0000
  {
    LastValues(inputs, 31, 3);
    LastValues(inputs, 30, 3);
    HighBits(TopRows(CircleColumn(inputs, 3)));
    v := Num(TopRows(CircleColumn(inputs, 3)));
  }

  /** Different top words decide. */
  lemma TopWordDecides(a: Words, b: Words, words: nat)
    requires 0 < words == |a| == |b| && a[words - 1] != b[words - 1]
    requires a[words - 1] < 0x1_0000_0000 && b[words - 1] < 0x1_0000_0000
    ensures Compare(a, b, words) == WrappedDifference(a[words - 1], b[words - 1])
    ensures Difference(a, b, words) + b[words - 1] == a[words - 1]
  {
  }

  /** Gate 1 is above gate 2, gate 2 above gate 3, and gate 3 above gate 1. */
  lemma CircleGoesRound(inputs: nat)
    requires inputs >= 5
    ensures InCircle(CircleColumn(inputs, 1), CircleColumn(inputs, 2), CircleColumn(inputs, 3), inputs)
  {
    var u, w, v := TopWords(inputs);
    var x, y, z := CircleColumn(inputs, 1), CircleColumn(inputs, 2), CircleColumn(inputs, 3);
    TopWordOf(x, inputs);
    TopWordOf(y, inputs);
    TopWordOf(z, inputs);
    TableIsTable(x, inputs);
    TableIsTable(y, inputs);
    TableIsTable(z, inputs);
    TopWordDecides(Table(x), Table(y), WordCount(inputs));
    TopWordDecides(Table(y), Table(z), WordCount(inputs));
    TopWordDecides(Table(z), Table(x), WordCount(inputs));
  }

  // ---- Keys are canonical for up to 4 inputs, and no further ----

  /** The generator writes the record. */
  ghost predicate IsWritten(record: Record, inputs: nat, gates: nat) {
    FaithfulRecord(record, inputs, gates) && IsRecord(record, inputs, gates) && Acceptable(record.gateInputs, inputs, gates)
  }

  /** Whatever output list of whatever record is catalogued, all arrangements of its functions
      are sorted into the same list. */
  ghost predicate KeysAreCanonical(inputs: nat) {
    forall record, gates, outputs :: IsWritten(record, inputs, gates) && Wanted(record, inputs, gates, outputs) ==>
      OneList(record, inputs, outputs)
  }

  ghost predicate OneList(record: Record, inputs: nat, outputs: seq<nat>) {
    IsColumns(OutputColumns(record, outputs), inputs) && SortIsCanonical(OutputColumns(record, outputs), inputs)
  }

  lemma CircleHasManyLists(inputs: nat)
    requires inputs >= 5
    ensures !OneList(CircleRecord(inputs), inputs, CircleOutputs(inputs))
  {
    var columns := CircleColumns(inputs);
    RecordedCircle(inputs);
    CircleHasNoRepeats(inputs);
    CircleGoesRound(inputs);
    var x, y, z := CircleColumn(inputs, 1), CircleColumn(inputs, 2), CircleColumn(inputs, 3);
    CircleDiffers(inputs, 1, 2);
    CircleDiffers(inputs, 2, 3);
    CircleDiffers(inputs, 1, 3);
    assert columns[0] == x && columns[1] == y && columns[2] == z;
    CircleBreaks(columns, inputs, x, y, z);
  }

  lemma CanonicalIffFourInputs(inputs: nat)
    ensures KeysAreCanonical(inputs) <==> inputs <= 4
  {
    if inputs <= 4 {
      forall record, gates, outputs | IsWritten(record, inputs, gates) && Wanted(record, inputs, gates, outputs)
        ensures OneList(record, inputs, outputs)
      {
        var columns := OutputColumns(record, outputs);
        OutputColumnsSized(record, inputs, gates, outputs);
        TablesAreFamily(columns, inputs);
        SmallIsOrdered(columns, inputs);
        RecognisesRepeats(columns, inputs);
        CanonicalIffOrdered(columns, inputs);
      }
    } else {
      CircleIsAcceptable(inputs);
      CircleIsWanted(inputs);
      CircleHasManyLists(inputs);
      assert IsWritten(CircleRecord(inputs), inputs, inputs - 1);
    }
  }

  // ---- What the front end looks for instead ----

  /** At 5 inputs the catalogue lists the three outputs as gates 1, 2, 3; the front end asks for
      the same functions as gates 2, 3, 1, so it never finds the line. */
  lemma FiveInputsAreMissed(inputs: nat)
    requires inputs == 5
    ensures IsWritten(CircleRecord(inputs), inputs, 4) && Wanted(CircleRecord(inputs), inputs, 4, CircleOutputs(inputs))
    ensures var x, y, z := CircleColumn(inputs, 1), CircleColumn(inputs, 2), CircleColumn(inputs, 3);
      && OutputColumns(CircleRecord(inputs), CircleOutputs(inputs)) == [x, y, z]
      && IsColumns([x, y, z], inputs) && SortedColumns([x, y, z], inputs) == Some([x, y, z])
      && FrontList([y, z, x], inputs) && ColumnSet([y, z, x]) == ColumnSet([x, y, z]) && [y, z, x] != [x, y, z]
  {
    assert CircleColumns(inputs) == [CircleColumn(inputs, 1), CircleColumn(inputs, 2), CircleColumn(inputs, 3)];
    CircleIsAcceptable(inputs);
    CircleIsWanted(inputs);
    RecordedCircle(inputs);
    hide *;
    ListsDiffer(inputs, CircleColumn(inputs, 1), CircleColumn(inputs, 2), CircleColumn(inputs, 3));
  }

  /** The three functions alone, for any number of inputs. */
  lemma ListsDiffer(inputs: nat, x: Column, y: Column, z: Column)
    requires inputs >= 5 && x == CircleColumn(inputs, 1) && y == CircleColumn(inputs, 2) && z == CircleColumn(inputs, 3)
    ensures IsColumns([x, y, z], inputs) && SortedColumns([x, y, z], inputs) == Some([x, y, z])
    ensures FrontList([y, z, x], inputs) && ColumnSet([y, z, x]) == ColumnSet([x, y, z]) && [y, z, x] != [x, y, z]
  {
    CircleGoesRound(inputs);
    CatalogueListsCircle(inputs, x, y, z);
    FrontListsCircle(inputs, x, y, z);
    CircleDiffers(inputs, 1, 2);
    SameThree(x, y, z);
    assert [y, z, x][0] != [x, y, z][0];
  }

  lemma SameThree(x: Column, y: Column, z: Column)
    ensures ColumnSet([y, z, x]) == ColumnSet([x, y, z])
  {
    assert ColumnSet([x, y, z]) == {x, y, z};
    assert ColumnSet([y, z, x]) == {x, y, z};
  }

  lemma CatalogueListsCircle(inputs: nat, x: Column, y: Column, z: Column)
    requires InCircle(x, y, z, inputs)
    ensures IsColumns([x, y, z], inputs) && SortedColumns([x, y, z], inputs) == Some([x, y, z])
  {
    var columns := [x, y, z];
    TablesAreFamily(columns, inputs);
    ThreeSteps(Tables(columns), WordCount(inputs));
    assert Chosen(columns, [0, 1, 2]) == columns;
  }

  lemma FrontListsCircle(inputs: nat, x: Column, y: Column, z: Column)
    requires inputs >= 5 && x == CircleColumn(inputs, 1) && y == CircleColumn(inputs, 2) && z == CircleColumn(inputs, 3)
    ensures FrontList([y, z, x], inputs)
  {
    var u, w, v := TopWords(inputs);
    LargerByTop(y, z, inputs);
    LargerByTop(z, x, inputs);
    LargerByTop(y, x, inputs);
  }

  lemma LargerByTop(c: Column, d: Column, inputs: nat)
    requires inputs >= 5 && |c| == |d| == Pow2(inputs) && Pow2(inputs) >= 32
    requires Num(TopRows(c)) > Num(TopRows(d))
    ensures Larger(c, d)
  {
    TopWordOf(c, inputs);
    TopWordOf(d, inputs);
    TableIsTable(c, inputs);
    TableIsTable(d, inputs);
    TopWordDecides(Table(c), Table(d), WordCount(inputs));
    CatalogueCompares(c, d, inputs);
  }
}
