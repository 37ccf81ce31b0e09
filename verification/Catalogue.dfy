/** Cataloguing a network record in nandcombinator.cc: which output lists are tried, and the
    search key and log line that each of them yields. */
module Catalogue {
  import opened Bits
  import opened BitStream
  import opened Codec
  import opened Packer
  import opened Networks
  import opened GateBuilder
  import opened OutputOrder
  import opened CanonicalKeys
  import opened Combinations
  import opened Lists
  import opened Extraction
  import opened Wrappers

  /** One line of a log file. */
  datatype Line = Line(gates: nat, key: string, wiring: string)

  /** A call of the insertion protocol. */
  datatype Submission = Submission(outputs: nat, searchKey: string, line: Line)

  // ---- What a submission says ----

  ghost function Concat(columns: seq<Column>): seq<bool> {
    if columns == [] then [] else Concat(columns[..|columns| - 1]) + columns[|columns| - 1]
  }

  ghost function KeyBits(inputs: nat, columns: seq<Column>): seq<bool> {
    BitsOf(inputs, 5) + BitsOf(|columns|, 5) + Concat(columns)
  }

  function SourceFields(sources: seq<nat>, width: nat): (fields: seq<Field>)
    ensures |fields| == |sources| && forall i :: 0 <= i < |fields| ==> fields[i] == Field(sources[i], width)
  {
    seq(|sources|, i requires 0 <= i < |sources| => Field(sources[i], width))
  }

  function WiringFields(gateInputs: seq<nat>, outputs: seq<nat>): seq<Field> {
    SourceFields(gateInputs, 6) + SourceFields(outputs, 5)
  }

  /** The columns of the gates in `outputs`. */
  ghost function OutputColumns(record: Record, outputs: seq<nat>): (columns: seq<Column>)
    ensures |columns| == |outputs|
    ensures forall i :: 0 <= i < |columns| ==> columns[i] == MaskColumn(record.gateOutputs, outputs[i])
  {
    seq(|outputs|, i requires 0 <= i < |outputs| => MaskColumn(record.gateOutputs, outputs[i]))
  }

  ghost function Reordered(outputs: seq<nat>, order: seq<nat>): (r: seq<nat>)
    requires forall i :: 0 <= i < |order| ==> order[i] < |outputs|
    ensures |r| == |order| && forall i :: 0 <= i < |r| ==> r[i] == outputs[order[i]]
  {
    seq(|order|, i requires 0 <= i < |order| => outputs[order[i]])
  }

  ghost predicate IsRecord(record: Record, inputs: nat, gates: nat) {
    |record.gateInputs| == 2 * gates && |record.gateOutputs| == Pow2(inputs)
  }

  lemma OutputColumnsSized(record: Record, inputs: nat, gates: nat, outputs: seq<nat>)
    requires IsRecord(record, inputs, gates)
    ensures IsColumns(OutputColumns(record, outputs), inputs)
  {
  }

  /** The submission for an output list: keys and wiring in the sorted order. */
  ghost predicate Describes(sub: Submission, record: Record, inputs: nat, gates: nat, outputs: seq<nat>)
    requires IsRecord(record, inputs, gates)
  {
    OutputColumnsSized(record, inputs, gates, outputs);
    var columns := OutputColumns(record, outputs);
    TablesAreFamily(columns, inputs);
    var order := SortFirst(Tables(columns), WordCount(inputs), |columns|);
    && order.Some? && sub.outputs == |outputs| && sub.line.gates == gates
    && Holds(sub.searchKey, 8, "", Concat(Chosen(columns, order.value)))
    && Encodes(BASE64_CSET, sub.line.key, KeyBits(inputs, Chosen(columns, order.value)))
    && Encodes(BASE64_CSET, sub.line.wiring, FieldBits(WiringFields(record.gateInputs, Reordered(outputs, order.value))))
  }

  // ---- The key and value makers ----

  lemma ConcatNext(columns: seq<Column>, n: nat)
    requires n < |columns|
    ensures Concat(columns[..n + 1]) == Concat(columns[..n]) + columns[n]
  {
    assert columns[..n + 1][..n] == columns[..n];
  }

  lemma {:induction false} ConcatInjective(a: seq<Column>, b: seq<Column>, inputs: nat)
    requires IsColumns(a, inputs) && IsColumns(b, inputs) && |a| == |b|
    ensures |Concat(a)| == |Concat(b)|
    ensures Concat(a) == Concat(b) <==> a == b
    decreases |a|
  {
    if a != [] {
      var n := |a| - 1;
      ConcatInjective(a[..n], b[..n], inputs);
      assert a == a[..n] + [a[n]] && b == b[..n] + [b[n]];
      assert |a[n]| == |b[n]| == Pow2(inputs);
      if Concat(a) == Concat(b) {
        assert Concat(a)[..|Concat(a[..n])|] == Concat(a[..n]);
        assert Concat(b)[..|Concat(b[..n])|] == Concat(b[..n]);
        assert Concat(a)[|Concat(a[..n])|..] == a[n];
        assert Concat(b)[|Concat(b[..n])|..] == b[n];
      }
    }
  }

  lemma CacheEmpty(packer: BitPacker, k: nat)
    requires packer.Valid() && packer.outBits == 8 && Whole(|packer.stream|, 32) && k == packer.cachedBits
    ensures k == 0
  {
    WordsAreBytes(|packer.stream|);
    WholeStream(|packer.stream|, packer.cachedBits, 8);
  }

  lemma WordsAreBytes(n: nat)
    requires Whole(n, 32)
    ensures Whole(n, 8)
  {
    if n > 0 {
      WordsAreBytes(n - 32);
      assert Whole(n - 24, 8) && Whole(n - 16, 8) && Whole(n - 8, 8);
    }
  }

  lemma WholeSum(m: nat, n: nat, k: nat)
    requires k > 0 && Whole(m, k) && Whole(n, k)
    ensures Whole(m + n, k)
    decreases n
  {
    if n > 0 {
      WholeSum(m, n - k, k);
    }
  }

  /** Words go in one at a time, into an empty cache. */
  method AddWord(packer: BitPacker, word: nat)
    requires packer.Valid() && packer.outBits == 8 && packer.wordBits == 32 && word < Pow2(32)
    requires Whole(|packer.stream|, 32)
    modifies packer
    ensures packer.Valid() && packer.stream == old(packer.stream) + BitsOf(word, 32) && Whole(|packer.stream|, 32)
  {
    CacheEmpty(packer, packer.cachedBits);
    packer.AddBits(word, 32);
  }

  lemma NextWord(table: Words, w: nat)
    requires w < |table|
    ensures Unpack(table[..w + 1], 32) == Unpack(table[..w], 32) + BitsOf(table[w], 32)
  {
    assert table[..w + 1] == table[..w] + [table[w]];
    UnpackAppend(table[..w], [table[w]], 32);
    assert Unpack([table[w]], 32) == BitsOf(table[w], 32) + Unpack([], 32);
  }

  /** Adds a whole column, 32 bits at a time. */
  method AddWords(packer: BitPacker, table: Words, ghost c: Column)
    requires packer.Valid() && packer.outBits == 8 && packer.wordBits == 32 && table == Table(c) && Whole(|c|, 32)
    requires Whole(|packer.stream|, 32)
    modifies packer
    ensures packer.Valid() && packer.stream == old(packer.stream) + c && Whole(|packer.stream|, 32)
  {
    hide Whole;
    WholeTable(c);
    PackBound(c, 32);
    ghost var start := packer.stream;
    var w := 0;
    while w < |table|
      invariant w <= |table| && packer.Valid() && Whole(|packer.stream|, 32)
      invariant packer.stream == start + Unpack(table[..w], 32)
    {
      AddWord(packer, table[w]);
      NextWord(table, w);
      Reassociate(start, Unpack(table[..w], 32), BitsOf(table[w], 32));
      w := w + 1;
    }
    assert table[..w] == table;
  }

  /** Adds a column bit by bit. */
  method AddColumnBits(packer: BitPacker, table: Words, bits: nat, ghost c: Column)
    requires packer.Valid() && packer.outBits == 6 && packer.wordBits == 32 && table == Table(c) && |c| == bits
    modifies packer
    ensures packer.Valid() && packer.stream == old(packer.stream) + c
  {
    var pos := 0;
    while pos < bits
      invariant pos <= bits && packer.Valid() && packer.stream == old(packer.stream) + c[..pos]
    {
      TableBit(c, pos);
      var b := Low(Shr(table[pos / 32], pos % 32), 1);
      packer.AddBits(b, 1);
      assert BitsOf(b, 1) == [c[pos]];
      assert c[..pos + 1] == c[..pos] + [c[pos]];
      pos := pos + 1;
    }
    assert c[..pos] == c;
  }

  method MakeSearchKey(tables: seq<Words>, order: seq<nat>, inputs: nat, ghost columns: seq<Column>)
    returns (key: string)
    requires IsColumns(columns, inputs) && tables == Tables(columns)
    requires forall i :: 0 <= i < |order| ==> order[i] < |columns|
    ensures Holds(key, 8, "", Concat(Chosen(columns, order)))
  {
    var packer := new BitPacker(8, "");
    var bits := Pow2(inputs);
    RowsAndWords(inputs);
    if bits >= 32 {
      AddTablesInWords(packer, tables, order, columns);
    }
    if bits % 32 != 0 {
      AddSmallTables(packer, tables, order, inputs, columns);
    }
    key := packer.Finish();
  }

  method AddTablesInWords(packer: BitPacker, tables: seq<Words>, order: seq<nat>, ghost columns: seq<Column>)
    requires packer.Valid() && packer.stream == [] && packer.outBits == 8 && packer.wordBits == 32
    requires tables == Tables(columns) && forall i :: 0 <= i < |columns| ==> Whole(|columns[i]|, 32)
    requires forall i :: 0 <= i < |order| ==> order[i] < |columns|
    modifies packer
    ensures packer.Valid() && packer.stream == Concat(Chosen(columns, order))
  {
    ghost var chosen := Chosen(columns, order);
    var n := 0;
    while n < |order|
      invariant n <= |order| && packer.Valid() && Whole(|packer.stream|, 32)
      invariant packer.stream == Concat(chosen[..n])
    {
      AddWords(packer, tables[order[n]], columns[order[n]]);
      ConcatNext(chosen, n);
      n := n + 1;
    }
    assert chosen[..n] == chosen;
  }

  method AddSmallTables(packer: BitPacker, tables: seq<Words>, order: seq<nat>, inputs: nat, ghost columns: seq<Column>)
    requires packer.Valid() && packer.stream == [] && packer.outBits == 8 && packer.wordBits == 32
    requires tables == Tables(columns) && IsColumns(columns, inputs) && Pow2(inputs) < 32
    requires forall i :: 0 <= i < |order| ==> order[i] < |columns|
    modifies packer
    ensures packer.Valid() && packer.stream == Concat(Chosen(columns, order))
  {
    ghost var chosen := Chosen(columns, order);
    var bits := Pow2(inputs);
    var n := 0;
    while n < |order|
      invariant n <= |order| && packer.Valid() && packer.stream == Concat(chosen[..n])
    {
      SmallTable(columns[order[n]], inputs);
      packer.AddBits(tables[order[n]][bits / 32], bits % 32);
      ConcatNext(chosen, n);
      n := n + 1;
    }
    assert chosen[..n] == chosen;
  }

  lemma SmallTable(c: Column, inputs: nat)
    requires |c| == Pow2(inputs) && Pow2(inputs) < 32
    ensures inputs <= 4 && Pow2(inputs) <= 16 && Table(c) == [Num(c)]
    ensures Num(c) < Pow2(Pow2(inputs)) && BitsOf(Num(c), Pow2(inputs)) == c
  {
    RowsAndWords(inputs);
    Pow2Monotone(inputs, 4);
    assert Pow2(4) == 16;
    NumBound(c);
    BitsOfNum(c);
  }

  method AddHeader(packer: BitPacker, inputs: nat, outputs: nat)
    requires packer.Valid() && packer.stream == [] && packer.wordBits == 32 && packer.outBits == 6
    requires inputs < 32 && outputs < 32
    modifies packer
    ensures packer.Valid() && packer.stream == BitsOf(inputs, 5) + BitsOf(outputs, 5)
  {
    assert Pow2(5) == 32;
    packer.AddBits(inputs, 5);
    packer.AddBits(outputs, 5);
  }

  method MakeKey(cset: string, tables: seq<Words>, order: seq<nat>, inputs: nat, ghost columns: seq<Column>)
    returns (key: string)
    requires |cset| == 64
    requires IsColumns(columns, inputs) && tables == Tables(columns) && inputs < 32 && |order| < 32
    requires forall i :: 0 <= i < |order| ==> order[i] < |columns|
    ensures Encodes(cset, key, KeyBits(inputs, Chosen(columns, order)))
  {
    var packer := new BitPacker(6, cset);
    ghost var chosen := Chosen(columns, order);
    AddHeader(packer, inputs, |order|);
    ghost var head := BitsOf(inputs, 5) + BitsOf(|order|, 5);
    var n := 0;
    while n < |order|
      invariant n <= |order| && packer.Valid() && fresh(packer)
      invariant packer.outBits == 6 && packer.cset == cset && packer.wordBits == 32
      invariant packer.stream == head + Concat(chosen[..n])
    {
      AddColumnBits(packer, tables[order[n]], Pow2(inputs), columns[order[n]]);
      ConcatNext(chosen, n);
      Reassociate(head, Concat(chosen[..n]), chosen[n]);
      n := n + 1;
    }
    assert chosen[..n] == chosen;
    key := packer.Finish();
    HoldsIsEncodes(key, cset, KeyBits(inputs, chosen));
  }

  method AddSources(packer: BitPacker, sources: seq<nat>, width: nat)
    requires packer.Valid() && packer.outBits == 6 && packer.wordBits == 32 && width <= 6
    requires forall i :: 0 <= i < |sources| ==> sources[i] < Pow2(width)
    modifies packer
    ensures packer.Valid() && packer.stream == old(packer.stream) + FieldBits(SourceFields(sources, width))
  {
    ghost var fields, start := SourceFields(sources, width), packer.stream;
    var n := 0;
    while n < |sources|
      invariant n <= |sources| && packer.Valid()
      invariant packer.stream == start + FieldBits(fields[..n])
    {
      packer.AddBits(sources[n], width);
      NextField(fields, n);
      Reassociate(start, FieldBits(fields[..n]), BitsOf(sources[n], width));
      n := n + 1;
    }
    assert fields[..n] == fields;
  }

  method MakeWiring(cset: string, gateInputs: seq<nat>, outputs: seq<nat>) returns (wiring: string)
    requires |cset| == 64
    requires forall i :: 0 <= i < |gateInputs| ==> gateInputs[i] < 64
    requires forall i :: 0 <= i < |outputs| ==> outputs[i] < 32
    ensures Encodes(cset, wiring, FieldBits(WiringFields(gateInputs, outputs)))
  {
    assert Pow2(5) == 32 && Pow2(6) == 64;
    var packer := new BitPacker(6, cset);
    AddSources(packer, gateInputs, 6);
    AddSources(packer, outputs, 5);
    FieldBitsAppend(SourceFields(gateInputs, 6), SourceFields(outputs, 5));
    assert packer.stream == FieldBits(WiringFields(gateInputs, outputs));
    wiring := packer.Finish();
    HoldsIsEncodes(wiring, cset, FieldBits(WiringFields(gateInputs, outputs)));
  }

  // ---- SaveOrIgnoreResult, up to the insertion ----

  method ExtractTables(record: Record, inputs: nat, gates: nat, outputs: seq<nat>) returns (tables: seq<Words>)
    requires IsRecord(record, inputs, gates)
    ensures tables == Tables(OutputColumns(record, outputs))
  {
    tables := [];
    var n := 0;
    while n < |outputs|
      invariant n <= |outputs| && tables == Tables(OutputColumns(record, outputs))[..n]
    {
      var table := ExtractTable(record.gateOutputs, outputs[n]);
      tables := tables + [table];
      n := n + 1;
    }
  }

  /** The fields of a record fit the widths of the log format. */
  ghost predicate FitsFormat(record: Record, inputs: nat, gates: nat) {
    inputs < 32 && gates <= 32 && forall i :: 0 <= i < |record.gateInputs| ==> record.gateInputs[i] < 64
  }

  ghost predicate IsOutputList(outputs: seq<nat>, gates: nat) {
    |outputs| < 32 && forall i :: 0 <= i < |outputs| ==> outputs[i] < gates
  }

  /** Nothing is submitted exactly if two outputs have the same table (for small words);
      otherwise the keys and the wiring of the sorted outputs. */
  method SaveOrIgnoreResult(record: Record, inputs: nat, gates: nat, outputs: seq<nat>, tables: seq<Words>)
    returns (sub: Option<Submission>)
    requires IsRecord(record, inputs, gates) && FitsFormat(record, inputs, gates) && IsOutputList(outputs, gates)
    requires tables == Tables(OutputColumns(record, outputs))
    ensures IsColumns(OutputColumns(record, outputs), inputs)
    ensures sub == None <==> SortedColumns(OutputColumns(record, outputs), inputs) == None
    ensures sub.Some? ==> Describes(sub.value, record, inputs, gates, outputs)
  {
    ghost var columns := OutputColumns(record, outputs);
    OutputColumnsSized(record, inputs, gates, outputs);
    TablesAreFamily(columns, inputs);
    var order, ok := SortOutputs(tables, WordCount(inputs));
    if !ok {
      return None;
    }
    var chosen := order[..];
    Base64Alphabet();
    var searchKey := MakeSearchKey(tables, chosen, inputs, columns);
    var key := MakeKey(BASE64_CSET, tables, chosen, inputs, columns);
    var sorted := ReorderOutputs(outputs, chosen);
    var wiring := MakeWiring(BASE64_CSET, record.gateInputs, sorted);
    sub := Some(Submission(|outputs|, searchKey, Line(gates, key, wiring)));
  }

  method ReorderOutputs(outputs: seq<nat>, order: seq<nat>) returns (r: seq<nat>)
    requires forall i :: 0 <= i < |order| ==> order[i] < |outputs|
    ensures r == Reordered(outputs, order)
  {
    r := seq(|order|, i requires 0 <= i < |order| => outputs[order[i]]);
  }

  // ---- The all-gates-used filter ----

  ghost predicate Feeds(record: Record, inputs: nat, g: nat) {
    inputs + g in record.gateInputs
  }

  /** Every gate feeds another gate or is an output. */
  ghost predicate UsesAll(record: Record, inputs: nat, gates: nat, outputs: seq<nat>) {
    forall g: nat :: g < gates ==> Feeds(record, inputs, g) || g in outputs
  }

  ghost predicate SourcesInRange(record: Record, inputs: nat, gates: nat) {
    forall i :: 0 <= i < |record.gateInputs| ==> record.gateInputs[i] < inputs + gates
  }

  method UsedGates(record: Record, inputs: nat, gates: nat) returns (used: set<nat>)
    requires SourcesInRange(record, inputs, gates)
    ensures forall g: nat :: g in used <==> Feeds(record, inputs, g)
    ensures used <= Below(gates)
  {
    used := {};
    var n := 0;
    while n < |record.gateInputs|
      invariant n <= |record.gateInputs| && used <= Below(gates)
      invariant forall g: nat :: g in used <==> inputs + g in record.gateInputs[..n]
    {
      var x := record.gateInputs[n];
      assert record.gateInputs[..n + 1] == record.gateInputs[..n] + [x];
      if x >= inputs {
        used := used + {x - inputs};
      }
      n := n + 1;
    }
    assert record.gateInputs[..n] == record.gateInputs;
  }

  lemma {:induction false} ElementsCount(s: seq<nat>)
    ensures |Elements(s)| <= |s|
  {
    if s != [] {
      ElementsCount(s[1..]);
      assert Elements(s) == {s[0]} + Elements(s[1..]);
    }
  }

  lemma UnionCount<T>(a: set<T>, b: set<T>)
    ensures |a + b| <= |a| + |b|
  {
    assert a + b == a + (b - a);
    assert |b - a| <= |b| by {
      assert b == (b - a) + (b * a);
    }
  }

  lemma FilterMeaning(record: Record, inputs: nat, gates: nat, used: set<nat>, outputs: seq<nat>)
    requires forall g: nat :: g in used <==> Feeds(record, inputs, g)
    requires used <= Below(gates) && IsOutputList(outputs, gates)
    ensures |used + Elements(outputs)| == gates <==> UsesAll(record, inputs, gates, outputs)
    ensures UsesAll(record, inputs, gates, outputs) ==> gates <= |used| + |outputs|
  {
    var mask := used + Elements(outputs);
    assert mask <= Below(gates);
    FullMask(mask, gates);
    ElementsCount(outputs);
    UnionCount(used, Elements(outputs));
    if UsesAll(record, inputs, gates, outputs) {
      assert mask == Below(gates);
    }
    if mask == Below(gates) {
      forall g: nat | g < gates
        ensures Feeds(record, inputs, g) || g in outputs
      {
        assert g in mask;
      }
    }
  }

  // ---- Catalogue ----

  /** Output lists worth a submission: all gates used, no table twice. */
  ghost predicate Wanted(record: Record, inputs: nat, gates: nat, outputs: seq<nat>)
    requires IsRecord(record, inputs, gates)
  {
    OutputColumnsSized(record, inputs, gates, outputs);
    && IsChoice(outputs, gates, |outputs|) && UsesAll(record, inputs, gates, outputs)
    && SortedColumns(OutputColumns(record, outputs), inputs).Some?
  }

  ghost predicate Justified(sub: Submission, record: Record, inputs: nat, gates: nat)
    requires IsRecord(record, inputs, gates)
  {
    exists outputs :: Wanted(record, inputs, gates, outputs) && Describes(sub, record, inputs, gates, outputs)
  }

  ghost predicate Submitted(submitted: seq<Submission>, record: Record, inputs: nat, gates: nat, outputs: seq<nat>)
    requires IsRecord(record, inputs, gates)
  {
    exists i :: 0 <= i < |submitted| && Describes(submitted[i], record, inputs, gates, outputs)
  }

  ghost predicate ReadyCombinations(combinations: seq<seq<Combination>>, gates: nat) {
    && |combinations| == gates + 1
    && forall k :: 1 <= k <= gates ==> FoundAll(OutputLists(combinations[k]), gates, k) && MasksRight(combinations[k])
  }

  ghost predicate AllSubmitted(submitted: seq<Submission>, record: Record, inputs: nat, gates: nat, k: nat)
    requires IsRecord(record, inputs, gates)
  {
    forall outputs :: |outputs| == k && Wanted(record, inputs, gates, outputs) ==>
      Submitted(submitted, record, inputs, gates, outputs)
  }

  ghost predicate AllJustified(submitted: seq<Submission>, record: Record, inputs: nat, gates: nat)
    requires IsRecord(record, inputs, gates)
  {
    forall i :: 0 <= i < |submitted| ==> Justified(submitted[i], record, inputs, gates)
  }

  // ---- When the completion test ends an output count ----

  /** `full` has the points (output count, list number) at which the completion test finds
      nothing missing. A list has its turn if the test has not done so up to it. */
  ghost predicate Turn(full: set<(nat, nat)>, k: nat, n: nat) {
    forall m: nat :: m <= n ==> (k, m) !in full
  }

  ghost predicate NeverFull(full: set<(nat, nat)>, k: nat) {
    forall n: nat :: (k, n) !in full
  }

  /** The submission comes from list `n` of its output count, which had its turn. */
  ghost predicate ComesFrom(sub: Submission, record: Record, inputs: nat, gates: nat, lists: seq<Combination>,
                            full: set<(nat, nat)>, k: nat, n: nat)
    requires IsRecord(record, inputs, gates)
  {
    && n < |lists| && Turn(full, k, n)
    && Wanted(record, inputs, gates, lists[n].outputs) && Describes(sub, record, inputs, gates, lists[n].outputs)
  }

  /** The submissions come from the lists numbered `at`, each list at most once and in order. */
  ghost predicate AllComeFrom(submitted: seq<Submission>, at: seq<nat>, record: Record, inputs: nat, gates: nat,
                              lists: seq<Combination>, full: set<(nat, nat)>, k: nat)
    requires IsRecord(record, inputs, gates)
  {
    && |at| == |submitted| && Climbs(at)
    && forall i :: 0 <= i < |at| ==> ComesFrom(submitted[i], record, inputs, gates, lists, full, k, at[i])
  }

  ghost predicate NoneSkipped(at: seq<nat>, record: Record, inputs: nat, gates: nat, lists: seq<Combination>,
                              full: set<(nat, nat)>, k: nat, bound: nat)
    requires IsRecord(record, inputs, gates)
  {
    forall n: nat :: n < bound && n < |lists| && Turn(full, k, n) && Wanted(record, inputs, gates, lists[n].outputs) ==>
      n in at
  }

  /** One output count: the wanted lists are submitted in order, up to the point at which the
      completion test finds nothing missing. */
  method CatalogueOutputs(record: Record, inputs: nat, gates: nat, used: set<nat>, lists: seq<Combination>, k: nat,
                          full: set<(nat, nat)>) returns (submitted: seq<Submission>, ghost at: seq<nat>)
    requires IsRecord(record, inputs, gates) && FitsFormat(record, inputs, gates) && 1 <= k < 32
    requires used <= Below(gates) && forall g: nat :: g in used <==> Feeds(record, inputs, g)
    requires FoundAll(OutputLists(lists), gates, k) && MasksRight(lists)
    ensures AllComeFrom(submitted, at, record, inputs, gates, lists, full, k)
    ensures NoneSkipped(at, record, inputs, gates, lists, full, k, |lists|)
  {
    hide Wanted, Describes;
    submitted, at := [], [];
    var n: nat := 0;
    while n < |lists|
      invariant n <= |lists| && AllComeFrom(submitted, at, record, inputs, gates, lists, full, k)
      invariant forall m: nat :: m < n ==> (k, m) !in full
      invariant (forall m :: m in at ==> m < n) && NoneSkipped(at, record, inputs, gates, lists, full, k, n)
    {
      if (k, n) in full {
        return;
      }
      ListIsChoice(lists, gates, k, n);
      var next := Try(record, inputs, gates, used, lists[n], k);
      ghost var before, beforeAt := submitted, at;
      submitted := submitted + next;
      at := if next == [] then at else at + [n];
      OneMore(before, next, beforeAt, record, inputs, gates, lists, full, k, n);
      n := n + 1;
    }
  }

  lemma ListIsChoice(lists: seq<Combination>, gates: nat, k: nat, n: nat)
    requires FoundAll(OutputLists(lists), gates, k) && MasksRight(lists) && n < |lists|
    ensures lists[n].mask == Elements(lists[n].outputs) && IsChoice(lists[n].outputs, gates, k)
  {
    assert OutputLists(lists)[n] in OutputLists(lists);
  }

  lemma OneMore(before: seq<Submission>, next: seq<Submission>, at: seq<nat>, record: Record, inputs: nat, gates: nat,
                lists: seq<Combination>, full: set<(nat, nat)>, k: nat, n: nat)
    requires IsRecord(record, inputs, gates) && n < |lists| && |next| <= 1 && Turn(full, k, n)
    requires AllComeFrom(before, at, record, inputs, gates, lists, full, k) && forall m :: m in at ==> m < n
    requires NoneSkipped(at, record, inputs, gates, lists, full, k, n)
    requires |next| == 1 ==> Describes(next[0], record, inputs, gates, lists[n].outputs)
    requires next == [] <==> !Wanted(record, inputs, gates, lists[n].outputs)
    ensures var more := if next == [] then at else at + [n];
      && AllComeFrom(before + next, more, record, inputs, gates, lists, full, k)
      && NoneSkipped(more, record, inputs, gates, lists, full, k, n + 1)
  {
    if next == [] {
      assert before + next == before;
      StillNoneSkipped(at, at, record, inputs, gates, lists, full, k, n);
    } else {
      ClimbOn(at, n);
      assert ComesFrom(next[0], record, inputs, gates, lists, full, k, n);
      OneMoreComesFrom(before, next[0], at, record, inputs, gates, lists, full, k, n);
      assert next == [next[0]];
      StillNoneSkipped(at, at + [n], record, inputs, gates, lists, full, k, n);
    }
  }

  lemma OneMoreComesFrom(before: seq<Submission>, sub: Submission, at: seq<nat>, record: Record, inputs: nat,
                         gates: nat,
                         lists: seq<Combination>, full: set<(nat, nat)>, k: nat, n: nat)
    requires IsRecord(record, inputs, gates) && AllComeFrom(before, at, record, inputs, gates, lists, full, k)
    requires ComesFrom(sub, record, inputs, gates, lists, full, k, n) && Climbs(at + [n])
    ensures AllComeFrom(before + [sub], at + [n], record, inputs, gates, lists, full, k)
  {
    var all, places := before + [sub], at + [n];
    forall i | 0 <= i < |places|
      ensures ComesFrom(all[i], record, inputs, gates, lists, full, k, places[i])
    {
      if i < |at| {
        assert ComesFrom(before[i], record, inputs, gates, lists, full, k, at[i]);
      }
    }
  }

  lemma StillNoneSkipped(at: seq<nat>, more: seq<nat>, record: Record, inputs: nat, gates: nat, lists: seq<Combination>,
                         full: set<(nat, nat)>, k: nat, n: nat)
    requires IsRecord(record, inputs, gates) && NoneSkipped(at, record, inputs, gates, lists, full, k, n) && n < |lists|
    requires at <= more && (Wanted(record, inputs, gates, lists[n].outputs) ==> n in more)
    ensures NoneSkipped(more, record, inputs, gates, lists, full, k, n + 1)
  {
    forall m: nat | m < n + 1 && m < |lists| && Turn(full, k, m) && Wanted(record, inputs, gates, lists[m].outputs)
      ensures m in more
    {
      if m < n {
        assert m in at;
      }
    }
  }

  /** The filter on one output list, and the submission if it passes. */
  method Try(record: Record, inputs: nat, gates: nat, used: set<nat>, list: Combination, k: nat)
    returns (submitted: seq<Submission>)
    requires IsRecord(record, inputs, gates) && FitsFormat(record, inputs, gates) && 1 <= k < 32
    requires used <= Below(gates) && forall g: nat :: g in used <==> Feeds(record, inputs, g)
    requires list.mask == Elements(list.outputs) && IsChoice(list.outputs, gates, k)
    ensures |submitted| <= 1 && (submitted == [] <==> !Wanted(record, inputs, gates, list.outputs))
    ensures |submitted| == 1 ==> Describes(submitted[0], record, inputs, gates, list.outputs)
  {
    submitted := [];
    FilterMeaning(record, inputs, gates, used, list.outputs);
    if |used + list.mask| != gates {
      return;
    }
    var tables := ExtractTables(record, inputs, gates, list.outputs);
    var sub := SaveOrIgnoreResult(record, inputs, gates, list.outputs, tables);
    if sub.Some? {
      submitted := [sub.value];
      assert Wanted(record, inputs, gates, list.outputs);
      assert Describes(submitted[0], record, inputs, gates, list.outputs);
    }
  }

  /** Where a submission of a record comes from: the output count and the list. */
  ghost predicate PlacesInOrder(places: seq<(nat, nat)>) {
    forall i, j :: 0 <= i < j < |places| ==>
      places[i].0 < places[j].0 || (places[i].0 == places[j].0 && places[i].1 < places[j].1)
  }

  ghost predicate RecordComesFrom(submitted: seq<Submission>, places: seq<(nat, nat)>, record: Record, inputs: nat,
                                  gates: nat, combinations: seq<seq<Combination>>, full: set<(nat, nat)>)
    requires IsRecord(record, inputs, gates)
  {
    && |places| == |submitted| && PlacesInOrder(places)
    && forall i {:trigger submitted[i]} {:trigger places[i]} :: 0 <= i < |places| ==>
         PlaceGives(submitted[i], places[i], record, inputs, gates, combinations, full)
  }

  ghost predicate PlaceGives(sub: Submission, place: (nat, nat), record: Record, inputs: nat, gates: nat,
                             combinations: seq<seq<Combination>>, full: set<(nat, nat)>)
    requires IsRecord(record, inputs, gates)
  {
    && place.0 < |combinations|
    && ComesFrom(sub, record, inputs, gates, combinations[place.0], full, place.0, place.1)
  }

  /** No wanted list of this output count that had its turn is missing. */
  ghost predicate CountComplete(places: seq<(nat, nat)>, record: Record, inputs: nat, gates: nat,
                                combinations: seq<seq<Combination>>, full: set<(nat, nat)>, k: nat)
    requires IsRecord(record, inputs, gates)
  {
    k < |combinations| ==>
      forall n: nat :: n < |combinations[k]| && Turn(full, k, n) && Wanted(record, inputs, gates, combinations[k][n].outputs) ==>
        (k, n) in places
  }

  /** All output counts up to the largest: exactly the wanted lists are submitted, each of them
      once and in order, except those of an output count that come behind the point at which
      the completion test finds nothing missing for that count. */
  method CatalogueRecord(record: Record, inputs: nat, gates: nat, combinations: seq<seq<Combination>>, maxOutputs: nat,
                         full: set<(nat, nat)>) returns (submitted: seq<Submission>, ghost places: seq<(nat, nat)>)
    requires IsRecord(record, inputs, gates) && FitsFormat(record, inputs, gates)
    requires SourcesInRange(record, inputs, gates) && ReadyCombinations(combinations, gates)
    requires gates < maxOutputs <= 32
    ensures RecordComesFrom(submitted, places, record, inputs, gates, combinations, full)
    ensures forall k :: 1 <= k <= maxOutputs ==> CountComplete(places, record, inputs, gates, combinations, full, k)
    ensures AllJustified(submitted, record, inputs, gates)
    ensures forall k :: 1 <= k <= maxOutputs && NeverFull(full, k) ==> AllSubmitted(submitted, record, inputs, gates, k)
  {
    var used := UsedGates(record, inputs, gates);
    FullMask(used, gates);
    submitted, places := [], [];
    var numOutputs := 1;
    while numOutputs <= maxOutputs
      invariant 1 <= numOutputs <= maxOutputs + 1
      invariant RecordComesFrom(submitted, places, record, inputs, gates, combinations, full)
      invariant forall i :: 0 <= i < |places| ==> 1 <= places[i].0 < numOutputs
      invariant forall k :: 1 <= k < numOutputs ==> CountComplete(places, record, inputs, gates, combinations, full, k)
    {
      if numOutputs > gates {
      } else if gates - |used| > numOutputs {
        TooManyUnused(record, inputs, gates, used, combinations[numOutputs], numOutputs);
      } else {
        var more;
        ghost var at;
        more, at := CatalogueOutputs(record, inputs, gates, used, combinations[numOutputs], numOutputs, full);
        OneCountMore(submitted, places, more, at, record, inputs, gates, combinations, full, numOutputs);
        submitted, places := submitted + more, places + PlacesOf(numOutputs, at);
      }
      numOutputs := numOutputs + 1;
    }
    RecordIsJustified(submitted, places, record, inputs, gates, combinations, full);
    forall k | 1 <= k <= maxOutputs && NeverFull(full, k)
      ensures AllSubmitted(submitted, record, inputs, gates, k)
    {
      CountIsSubmitted(submitted, places, record, inputs, gates, combinations, full, k);
    }
  }

  ghost function PlacesOf(k: nat, at: seq<nat>): (places: seq<(nat, nat)>)
    ensures |places| == |at| && forall i :: 0 <= i < |at| ==> places[i] == (k, at[i])
  {
    seq(|at|, i requires 0 <= i < |at| => (k, at[i]))
  }

  lemma OneCountMore(submitted: seq<Submission>, places: seq<(nat, nat)>, more: seq<Submission>, at: seq<nat>,
                     record: Record, inputs: nat, gates: nat, combinations: seq<seq<Combination>>,
                     full: set<(nat, nat)>, k: nat)
    requires IsRecord(record, inputs, gates) && k < |combinations|
    requires RecordComesFrom(submitted, places, record, inputs, gates, combinations, full)
    requires forall i :: 0 <= i < |places| ==> 1 <= places[i].0 < k
    requires forall j :: 1 <= j < k ==> CountComplete(places, record, inputs, gates, combinations, full, j)
    requires AllComeFrom(more, at, record, inputs, gates, combinations[k], full, k)
    requires NoneSkipped(at, record, inputs, gates, combinations[k], full, k, |combinations[k]|)
    ensures var all := places + PlacesOf(k, at);
      && RecordComesFrom(submitted + more, all, record, inputs, gates, combinations, full)
      && forall j :: 1 <= j < k + 1 ==> CountComplete(all, record, inputs, gates, combinations, full, j)
  {
    var all := places + PlacesOf(k, at);
    PlacesGoOn(places, at, k);
    forall i | 0 <= i < |all|
      ensures PlaceGives((submitted + more)[i], all[i], record, inputs, gates, combinations, full)
    {
      if i < |places| {
        assert PlaceGives(submitted[i], places[i], record, inputs, gates, combinations, full);
      } else {
        assert ComesFrom(more[i - |places|], record, inputs, gates, combinations[k], full, k, at[i - |places|]);
      }
    }
    forall j | 1 <= j < k + 1
      ensures CountComplete(all, record, inputs, gates, combinations, full, j)
    {
      CountStaysComplete(places, at, record, inputs, gates, combinations, full, k, j);
    }
  }

  lemma PlacesGoOn(places: seq<(nat, nat)>, at: seq<nat>, k: nat)
    requires PlacesInOrder(places) && Climbs(at) && forall i :: 0 <= i < |places| ==> 1 <= places[i].0 < k
    ensures PlacesInOrder(places + PlacesOf(k, at))
  {
  }

  lemma CountStaysComplete(places: seq<(nat, nat)>, at: seq<nat>, record: Record, inputs: nat, gates: nat,
                           combinations: seq<seq<Combination>>, full: set<(nat, nat)>, k: nat, j: nat)
    requires IsRecord(record, inputs, gates) && k < |combinations| && j <= k
    requires j < k ==> CountComplete(places, record, inputs, gates, combinations, full, j)
    requires NoneSkipped(at, record, inputs, gates, combinations[k], full, k, |combinations[k]|)
    ensures CountComplete(places + PlacesOf(k, at), record, inputs, gates, combinations, full, j)
  {
    var all := places + PlacesOf(k, at);
    forall n: nat | n < |combinations[j]| && Turn(full, j, n) && Wanted(record, inputs, gates, combinations[j][n].outputs)
      ensures (j, n) in all
    {
      if j < k {
        assert (j, n) in places;
      } else {
        assert n in at;
        var i :| 0 <= i < |at| && at[i] == n;
        assert all[|places| + i] == (k, n);
      }
    }
  }

  lemma RecordIsJustified(submitted: seq<Submission>, places: seq<(nat, nat)>, record: Record, inputs: nat, gates: nat,
                          combinations: seq<seq<Combination>>, full: set<(nat, nat)>)
    requires IsRecord(record, inputs, gates)
    requires RecordComesFrom(submitted, places, record, inputs, gates, combinations, full)
    ensures AllJustified(submitted, record, inputs, gates)
  {
    forall i | 0 <= i < |submitted|
      ensures Justified(submitted[i], record, inputs, gates)
    {
      assert PlaceGives(submitted[i], places[i], record, inputs, gates, combinations, full);
    }
  }

  /** Where the completion test never finds an output count full, all that is wanted with that
      many outputs has been submitted. */
  lemma CountIsSubmitted(submitted: seq<Submission>, places: seq<(nat, nat)>, record: Record, inputs: nat, gates: nat,
                         combinations: seq<seq<Combination>>, full: set<(nat, nat)>, k: nat)
    requires IsRecord(record, inputs, gates) && ReadyCombinations(combinations, gates) && 1 <= k && NeverFull(full, k)
    requires RecordComesFrom(submitted, places, record, inputs, gates, combinations, full)
    requires CountComplete(places, record, inputs, gates, combinations, full, k)
    ensures AllSubmitted(submitted, record, inputs, gates, k)
  {
    forall outputs | |outputs| == k && Wanted(record, inputs, gates, outputs)
      ensures Submitted(submitted, record, inputs, gates, outputs)
    {
      if k > gates {
        ChoiceAtLeast(outputs, gates, k, k - 1);
        assert false;
      } else {
        assert outputs in OutputLists(combinations[k]);
        var n :| 0 <= n < |combinations[k]| && combinations[k][n].outputs == outputs;
        assert (k, n) in places;
        var i :| 0 <= i < |places| && places[i] == (k, n);
        assert PlaceGives(submitted[i], places[i], record, inputs, gates, combinations, full);
      }
    }
  }

  /** With more unused gates than outputs no list of this output count is wanted. */
  lemma TooManyUnused(record: Record, inputs: nat, gates: nat, used: set<nat>, lists: seq<Combination>, k: nat)
    requires IsRecord(record, inputs, gates) && used <= Below(gates) && k < 32
    requires forall g: nat :: g in used <==> Feeds(record, inputs, g)
    requires |used| + k < gates && FoundAll(OutputLists(lists), gates, k)
    ensures forall n :: 0 <= n < |lists| ==> !Wanted(record, inputs, gates, lists[n].outputs)
  {
    forall n | 0 <= n < |lists|
      ensures !Wanted(record, inputs, gates, lists[n].outputs)
    {
      assert OutputLists(lists)[n] in OutputLists(lists);
      FilterMeaning(record, inputs, gates, used, lists[n].outputs);
    }
  }
}
