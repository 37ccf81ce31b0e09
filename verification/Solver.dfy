/** backend/solver.php: decoding a database row into gate and output sources, and why every
    logged line is sound: the decoded network computes the columns in the key. */
module Solver {
  import opened Bits
  import opened BitStream
  import opened Codec
  import opened PhpCodec
  import opened Networks
  import opened Renumbering
  import opened GateBuilder
  import opened OutputOrder
  import opened CanonicalKeys
  import opened Extraction
  import opened Catalogue
  import opened Wrappers

  /** "i3" or "g3" */
  datatype Source = FromInput(n: nat) | FromGate(n: nat)

  /** The gates and connections fields of a database row. */
  datatype Row = Row(gates: nat, connections: string)

  function SourceOf(code: nat, inputs: nat): Source {
    if code < inputs then FromInput(code) else FromGate(code - inputs)
  }

  function CodeOf(source: Source, inputs: nat): nat {
    if source.FromInput? then source.n else inputs + source.n
  }

  /** The string starts with these bits. */
  ghost predicate HoldsBits(s: string, bits: seq<bool>) {
    exists digits :: Spells(BASE64_CSET, s, digits) && bits <= Unpack(digits, 6)
  }

  lemma EncodesHoldsBits(s: string, bits: seq<bool>)
    requires Encodes(BASE64_CSET, s, bits)
    ensures HoldsBits(s, bits)
  {
    UnpackPack(bits, 6);
  }

  lemma FirstBits(rest: seq<bool>, value: nat, width: nat, tail: seq<bool>)
    requires value < Pow2(width) && BitsOf(value, width) + tail <= rest
    ensures width <= |rest| && Num(rest[..width]) == value && tail <= rest[width..]
  {
    var more := rest[width + |tail|..];
    assert rest == BitsOf(value, width) + tail + more;
    Reassociate(BitsOf(value, width), tail, more);
    Concatenated(BitsOf(value, width), tail + more);
    NumOfBits(value, width);
    LowIsIdentity(value, width);
  }

  /** What comes first in a stream is read first. */
  method ReadField(dec: Base64Decoder, width: nat, ghost value: nat, ghost tail: seq<bool>) returns (v: nat)
    requires dec.Valid() && width <= MAX_WIDTH && value < Pow2(width) && BitsOf(value, width) + tail <= dec.Rest()
    modifies dec
    ensures dec.Valid() && v == value && tail <= dec.Rest()
  {
    FirstBits(dec.Rest(), value, width, tail);
    v := dec.Get(width);
  }

  lemma EmptyTail(bits: seq<bool>)
    ensures bits + [] == bits
  {
  }

  ghost predicate AllBelow(sources: seq<nat>, bound: nat) {
    forall i :: 0 <= i < |sources| ==> sources[i] < bound
  }

  /** What gate_from holds after `n` sources of the gates have been read. */
  ghost predicate GatesRead(gateFrom: seq<seq<Source>>, gateInputs: seq<nat>, inputs: nat, n: nat)
    requires n <= |gateInputs|
  {
    && |gateFrom| == (n + 1) / 2
    && forall g :: 0 <= g < |gateFrom| ==>
      gateFrom[g] == if 2 * g + 1 < n then [SourceOf(gateInputs[2 * g], inputs), SourceOf(gateInputs[2 * g + 1], inputs)]
                     else [SourceOf(gateInputs[2 * g], inputs)]
  }

  ghost predicate OutputsRead(outFrom: seq<Source>, outputs: seq<nat>) {
    |outFrom| == |outputs| && forall n :: 0 <= n < |outputs| ==> outFrom[n] == FromGate(outputs[n])
  }

  lemma FirstSource(sources: seq<nat>, width: nat)
    requires sources != []
    ensures FieldBits(SourceFields(sources, width))
      == BitsOf(sources[0], width) + FieldBits(SourceFields(sources[1..], width))
  {
    assert SourceFields(sources, width)[1..] == SourceFields(sources[1..], width);
  }

  /** Reads source number `n` of a list whose rest is next in the stream. */
  method ReadSource(dec: Base64Decoder, ghost sources: seq<nat>, ghost n: nat, width: nat, ghost tail: seq<bool>)
    returns (code: nat)
    requires dec.Valid() && width <= MAX_WIDTH && n < |sources| && AllBelow(sources, Pow2(width))
    requires FieldBits(SourceFields(sources[n..], width)) + tail <= dec.Rest()
    modifies dec
    ensures dec.Valid() && code == sources[n]
    ensures FieldBits(SourceFields(sources[n + 1..], width)) + tail <= dec.Rest()
  {
    ghost var rest := sources[n..];
    FirstSource(rest, width);
    assert rest[1..] == sources[n + 1..];
    ghost var others := FieldBits(SourceFields(sources[n + 1..], width));
    Reassociate(BitsOf(sources[n], width), others, tail);
    code := ReadField(dec, width, sources[n], others + tail);
  }

  /** The row stores these sources: two of 6 bits for each gate, one of 5 bits for each output. */
  ghost predicate RowHolds(row: Row, gateInputs: seq<nat>, outputs: seq<nat>) {
    && |gateInputs| == 2 * row.gates && AllBelow(gateInputs, Pow2(6)) && AllBelow(outputs, Pow2(5))
    && HoldsBits(row.connections, FieldBits(WiringFields(gateInputs, outputs)))
  }

  class Solver {
    const key: string
    var numInputs: nat
    var numOutputs: nat
    var numGates: nat
    var gateFrom: seq<seq<Source>>
    var outFrom: seq<Source>

    constructor (key: string)
      ensures this.key == key && numInputs == numOutputs == numGates == 0 && gateFrom == [] && outFrom == []
    {
      this.key, numInputs, numOutputs, numGates, gateFrom, outFrom := key, 0, 0, 0, [], [];
    }

    /** Decodes the row that the database holds for the key, if it holds one. */
    method Solve(row: Option<Row>, ghost inputs: nat, ghost outputCount: nat, ghost gateInputs: seq<nat>,
                 ghost outputs: seq<nat>)
      requires inputs < 32 && outputCount < 32 && numGates == 0 && gateFrom == [] && outFrom == []
      requires HoldsBits(key, BitsOf(inputs, 5) + BitsOf(outputCount, 5))
      requires row.Some? ==> |outputs| == outputCount && RowHolds(row.value, gateInputs, outputs)
      modifies this
      ensures numInputs == inputs && numOutputs == outputCount
      ensures inputs == 0 || outputCount == 0 || row.None? ==> numGates == 0 && gateFrom == []
      ensures inputs == 0 || outputCount == 0 ==> outFrom == []
      ensures inputs > 0 && outputCount > 0 && row.None? ==> outFrom == seq(outputCount, n => FromGate(0))
      ensures inputs > 0 && outputCount > 0 && row.Some? ==>
        numGates == row.value.gates && GatesRead(gateFrom, gateInputs, inputs, |gateInputs|) && OutputsRead(outFrom, outputs)
    {
      ReadHeader(inputs, outputCount);
      if numInputs == 0 || numOutputs == 0 {
        return;
      }
      match row
      case None =>
        // nothing was fetched; missing characters read as 0
        outFrom := seq(numOutputs, n => FromGate(0));
      case Some(found) =>
        numGates := found.gates;
        ReadConnections(found, gateInputs, outputs);
    }

    method ReadConnections(row: Row, ghost gateInputs: seq<nat>, ghost outputs: seq<nat>)
      requires |outputs| == numOutputs && numGates == row.gates && gateFrom == [] && outFrom == []
      requires RowHolds(row, gateInputs, outputs)
      modifies this`gateFrom, this`outFrom
      ensures GatesRead(gateFrom, gateInputs, numInputs, |gateInputs|) && OutputsRead(outFrom, outputs)
    {
      ghost var digits :| Spells(BASE64_CSET, row.connections, digits)
        && FieldBits(WiringFields(gateInputs, outputs)) <= Unpack(digits, 6);
      var dec := new Base64Decoder(row.connections, digits);
      FieldBitsAppend(SourceFields(gateInputs, 6), SourceFields(outputs, 5));
      ReadGates(dec, gateInputs, FieldBits(SourceFields(outputs, 5)));
      ReadOutputs(dec, outputs);
    }

    method ReadHeader(ghost inputs: nat, ghost outputs: nat)
      requires inputs < 32 && outputs < 32
      requires HoldsBits(key, BitsOf(inputs, 5) + BitsOf(outputs, 5))
      modifies this`numInputs, this`numOutputs
      ensures numInputs == inputs && numOutputs == outputs
    {
      ghost var digits :| Spells(BASE64_CSET, key, digits)
        && BitsOf(inputs, 5) + BitsOf(outputs, 5) <= Unpack(digits, 6);
      var dec := new Base64Decoder(key, digits);
      assert Pow2(5) == 32;
      numInputs := ReadField(dec, 5, inputs, BitsOf(outputs, 5));
      assert BitsOf(outputs, 5) == BitsOf(outputs, 5) + [];
      numOutputs := ReadField(dec, 5, outputs, []);
    }

    method ReadGates(dec: Base64Decoder, ghost gateInputs: seq<nat>, ghost tail: seq<bool>)
      requires dec.Valid() && |gateInputs| == 2 * numGates && AllBelow(gateInputs, Pow2(6)) && gateFrom == []
      requires FieldBits(SourceFields(gateInputs, 6)) + tail <= dec.Rest()
      modifies this`gateFrom, dec
      ensures dec.Valid() && tail <= dec.Rest()
      ensures GatesRead(gateFrom, gateInputs, numInputs, |gateInputs|)
    {
      var n := 0;
      assert gateInputs[0..] == gateInputs;
      while n < numGates * 2
        invariant n <= |gateInputs| && dec.Valid()
        invariant FieldBits(SourceFields(gateInputs[n..], 6)) + tail <= dec.Rest()
        invariant GatesRead(gateFrom, gateInputs, numInputs, n)
      {
        var code := ReadSource(dec, gateInputs, n, 6, tail);
        AddSource(SourceOf(code, numInputs), n, gateInputs);
        n := n + 1;
      }
      assert gateInputs[n..] == [];
      assert FieldBits(SourceFields([], 6)) + tail == tail;
    }

    method AddSource(source: Source, n: nat, ghost gateInputs: seq<nat>)
      requires n < |gateInputs| && source == SourceOf(gateInputs[n], numInputs)
      requires GatesRead(gateFrom, gateInputs, numInputs, n)
      modifies this`gateFrom
      ensures GatesRead(gateFrom, gateInputs, numInputs, n + 1)
    {
      if n % 2 == 0 {
        gateFrom := gateFrom + [[source]];
      } else {
        gateFrom := gateFrom[n / 2 := gateFrom[n / 2] + [source]];
      }
    }

    method ReadOutputs(dec: Base64Decoder, ghost outputs: seq<nat>)
      requires dec.Valid() && |outputs| == numOutputs && AllBelow(outputs, Pow2(5)) && outFrom == []
      requires FieldBits(SourceFields(outputs, 5)) <= dec.Rest()
      modifies this`outFrom, dec
      ensures OutputsRead(outFrom, outputs)
    {
      var n := 0;
      assert outputs[0..] == outputs;
      while n < numOutputs
        invariant n <= |outputs| && dec.Valid()
        invariant FieldBits(SourceFields(outputs[n..], 5)) <= dec.Rest()
        invariant OutputsRead(outFrom, outputs[..n])
      {
        EmptyTail(FieldBits(SourceFields(outputs[n..], 5)));
        var code := ReadSource(dec, outputs, n, 5, []);
        EmptyTail(FieldBits(SourceFields(outputs[n + 1..], 5)));
        outFrom := outFrom + [FromGate(code)];
        n := n + 1;
      }
      assert outputs[..n] == outputs;
    }
  }

  // ---- Soundness of logged lines ----

  /** The network a decoded row describes. */
  ghost function WiredNet(gateFrom: seq<seq<Source>>, inputs: nat): (net: Net)
    requires forall g :: 0 <= g < |gateFrom| ==> |gateFrom[g]| == 2
    ensures |net| == |gateFrom|
  {
    seq(|gateFrom|, g requires 0 <= g < |gateFrom| => Gate(CodeOf(gateFrom[g][0], inputs), CodeOf(gateFrom[g][1], inputs)))
  }

  lemma WiredNetIsRecorded(gateFrom: seq<seq<Source>>, gateInputs: seq<nat>, inputs: nat)
    requires |gateInputs| % 2 == 0 && GatesRead(gateFrom, gateInputs, inputs, |gateInputs|)
    ensures forall g :: 0 <= g < |gateFrom| ==> |gateFrom[g]| == 2
    ensures WiredNet(gateFrom, inputs) == NetOf(gateInputs)
  {
    var net, recorded := WiredNet(gateFrom, inputs), NetOf(gateInputs);
    forall g | 0 <= g < |net|
      ensures net[g] == recorded[g]
    {
    }
  }

  /** Decoding output `n` of the wiring gives a gate that drives column `n` of the key. */
  ghost predicate Delivers(gateFrom: seq<seq<Source>>, outFrom: seq<Source>, inputs: nat, columns: seq<Column>) {
    && (forall g :: 0 <= g < |gateFrom| ==> |gateFrom[g]| == 2)
    && var net := WiredNet(gateFrom, inputs);
       && Topological(net, inputs) && |outFrom| == |columns|
       && forall n :: 0 <= n < |columns| ==> OutputDrives(net, inputs, outFrom[n], columns[n])
  }

  ghost predicate OutputDrives(net: Net, inputs: nat, source: Source, c: Column)
    requires Topological(net, inputs)
  {
    source.FromGate? && source.n < |net| && Drives(net, inputs, source.n, c)
  }

  lemma OutputDelivers(record: Record, inputs: nat, gates: nat, outputs: seq<nat>, order: seq<nat>, n: nat)
    requires FaithfulRecord(record, inputs, gates) && IsOutputList(outputs, gates)
    requires n < |order| && forall i :: 0 <= i < |order| ==> order[i] < |outputs|
    ensures Reordered(outputs, order)[n] < gates
    ensures Drives(NetOf(record.gateInputs), inputs, Reordered(outputs, order)[n],
                   Chosen(OutputColumns(record, outputs), order)[n])
  {
    FaithfulColumn(record, inputs, gates, outputs[order[n]]);
  }

  /** Every logged line is sound: the key holds the header and the columns, and decoding the
      wiring as the front end does gives a network that computes exactly these columns. */
  method DecodeLine(sub: Submission, ghost record: Record, ghost inputs: nat, ghost gates: nat, ghost outputs: seq<nat>)
    returns (solver: Solver, ghost columns: seq<Column>)
    requires FaithfulRecord(record, inputs, gates) && FitsFormat(record, inputs, gates) && 0 < inputs
    requires IsOutputList(outputs, gates) && 0 < |outputs| && Describes(sub, record, inputs, gates, outputs)
    ensures IsColumns(OutputColumns(record, outputs), inputs)
    ensures Some(columns) == SortedColumns(OutputColumns(record, outputs), inputs)
    ensures Encodes(BASE64_CSET, sub.line.key, KeyBits(inputs, columns))
    ensures solver.numInputs == inputs && solver.numOutputs == |columns| && solver.numGates == gates
    ensures Delivers(solver.gateFrom, solver.outFrom, inputs, columns)
  {
    ghost var order;
    order, columns := SortedOutputs(sub, record, inputs, gates, outputs);
    ghost var sorted := Reordered(outputs, order);
    HeaderOfKey(sub.line.key, inputs, columns);
    EncodesHoldsBits(sub.line.wiring, FieldBits(WiringFields(record.gateInputs, sorted)));
    solver := new Solver(sub.line.key);
    solver.Solve(Some(Row(sub.line.gates, sub.line.wiring)), inputs, |outputs|, record.gateInputs, sorted);
    DecodedDelivers(solver.gateFrom, solver.outFrom, record, inputs, gates, outputs, order);
  }

  lemma SortedOutputs(sub: Submission, record: Record, inputs: nat, gates: nat, outputs: seq<nat>)
    returns (order: seq<nat>, columns: seq<Column>)
    requires IsRecord(record, inputs, gates) && FitsFormat(record, inputs, gates)
    requires IsOutputList(outputs, gates) && Describes(sub, record, inputs, gates, outputs)
    ensures |order| == |outputs| && forall i :: 0 <= i < |order| ==> order[i] < |outputs|
    ensures IsColumns(OutputColumns(record, outputs), inputs)
    ensures columns == Chosen(OutputColumns(record, outputs), order)
    ensures Some(columns) == SortedColumns(OutputColumns(record, outputs), inputs)
    ensures Encodes(BASE64_CSET, sub.line.key, KeyBits(inputs, columns)) && sub.line.gates == gates
    ensures Encodes(BASE64_CSET, sub.line.wiring, FieldBits(WiringFields(record.gateInputs, Reordered(outputs, order))))
    ensures AllBelow(record.gateInputs, Pow2(6)) && AllBelow(Reordered(outputs, order), Pow2(5))
  {
    OutputColumnsSized(record, inputs, gates, outputs);
    TablesAreFamily(OutputColumns(record, outputs), inputs);
    order := SortFirst(Tables(OutputColumns(record, outputs)), WordCount(inputs), |outputs|).value;
    columns := Chosen(OutputColumns(record, outputs), order);
    assert Pow2(5) == 32 && Pow2(6) == 64;
  }

  lemma DecodedDelivers(gateFrom: seq<seq<Source>>, outFrom: seq<Source>, record: Record, inputs: nat, gates: nat,
                        outputs: seq<nat>, order: seq<nat>)
    requires FaithfulRecord(record, inputs, gates) && IsOutputList(outputs, gates)
    requires |order| == |outputs| && forall i :: 0 <= i < |order| ==> order[i] < |outputs|
    requires GatesRead(gateFrom, record.gateInputs, inputs, |record.gateInputs|)
    requires OutputsRead(outFrom, Reordered(outputs, order))
    ensures Delivers(gateFrom, outFrom, inputs, Chosen(OutputColumns(record, outputs), order))
  {
    WiredNetIsRecorded(gateFrom, record.gateInputs, inputs);
    var columns := Chosen(OutputColumns(record, outputs), order);
    forall n | 0 <= n < |columns|
      ensures OutputDrives(NetOf(record.gateInputs), inputs, outFrom[n], columns[n])
    {
      OutputDelivers(record, inputs, gates, outputs, order, n);
    }
  }

  lemma HeaderOfKey(key: string, inputs: nat, columns: seq<Column>)
    requires Encodes(BASE64_CSET, key, KeyBits(inputs, columns))
    ensures HoldsBits(key, BitsOf(inputs, 5) + BitsOf(|columns|, 5))
  {
    EncodesHoldsBits(key, KeyBits(inputs, columns));
    var digits :| Spells(BASE64_CSET, key, digits) && KeyBits(inputs, columns) <= Unpack(digits, 6);
    assert BitsOf(inputs, 5) + BitsOf(|columns|, 5) <= KeyBits(inputs, columns);
  }

  // ---- Sound databases ----

  /** The row stores a network that computes the columns. */
  ghost predicate SoundRow(row: Row, inputs: nat, columns: seq<Column>) {
    row.gates > 0 && exists gateInputs, outputs :: RowHolds(row, gateInputs, outputs) && ComputesColumns(gateInputs, inputs, outputs, columns)
  }

  ghost predicate ComputesColumns(gateInputs: seq<nat>, inputs: nat, outputs: seq<nat>, columns: seq<Column>) {
    && Topological(NetOf(gateInputs), inputs) && |outputs| == |columns|
    && forall n :: 0 <= n < |columns| ==> DrivesColumn(NetOf(gateInputs), inputs, outputs[n], columns[n])
  }

  ghost predicate DrivesColumn(net: Net, inputs: nat, g: nat, c: Column)
    requires Topological(net, inputs)
  {
    g < |net| && Drives(net, inputs, g, c)
  }

  /** Whatever table a key encodes, the row found under it computes that table. */
  ghost predicate SoundDatabase(database: map<string, Row>) {
    forall key, inputs, columns :: key in database && EncodesTable(key, inputs, columns) ==> SoundRow(database[key], inputs, columns)
  }

  ghost predicate EncodesTable(key: string, inputs: nat, columns: seq<Column>) {
    inputs < 32 && |columns| < 32 && IsColumns(columns, inputs) && Encodes(BASE64_CSET, key, KeyBits(inputs, columns))
  }

  /** The sources of a sound row, decoded, deliver the columns. */
  lemma SoundRowDelivers(gateFrom: seq<seq<Source>>, outFrom: seq<Source>, inputs: nat, gateInputs: seq<nat>,
                         outputs: seq<nat>,
                         columns: seq<Column>)
    requires |gateInputs| % 2 == 0 && GatesRead(gateFrom, gateInputs, inputs, |gateInputs|)
      && OutputsRead(outFrom, outputs)
    requires ComputesColumns(gateInputs, inputs, outputs, columns)
    ensures Delivers(gateFrom, outFrom, inputs, columns)
  {
    WiredNetIsRecorded(gateFrom, gateInputs, inputs);
    forall n | 0 <= n < |columns|
      ensures OutputDrives(NetOf(gateInputs), inputs, outFrom[n], columns[n])
    {
      assert DrivesColumn(NetOf(gateInputs), inputs, outputs[n], columns[n]);
    }
  }

  /** Every logged line is a sound row for the columns in its key. */
  lemma LoggedLineIsSound(sub: Submission, record: Record, inputs: nat, gates: nat, outputs: seq<nat>)
    returns (columns: seq<Column>)
    requires FaithfulRecord(record, inputs, gates) && FitsFormat(record, inputs, gates)
      && IsRecord(record, inputs, gates)
    requires IsOutputList(outputs, gates) && Describes(sub, record, inputs, gates, outputs) && gates > 0
    ensures IsColumns(OutputColumns(record, outputs), inputs)
    ensures Some(columns) == SortedColumns(OutputColumns(record, outputs), inputs)
    ensures EncodesTable(sub.line.key, inputs, columns)
      && SoundRow(Row(sub.line.gates, sub.line.wiring), inputs, columns)
  {
    var order;
    order, columns := SortedOutputs(sub, record, inputs, gates, outputs);
    var sorted := Reordered(outputs, order);
    EncodesHoldsBits(sub.line.wiring, FieldBits(WiringFields(record.gateInputs, sorted)));
    assert RowHolds(Row(sub.line.gates, sub.line.wiring), record.gateInputs, sorted);
    forall n | 0 <= n < |columns|
      ensures DrivesColumn(NetOf(record.gateInputs), inputs, sorted[n], columns[n])
    {
      OutputDelivers(record, inputs, gates, outputs, order, n);
    }
    assert ComputesColumns(record.gateInputs, inputs, sorted, columns);
  }
}
