/** The Parser class of backend/parser.php: from phrases to a truth table, to a table key, and
    from a stored network to the logic map. */
module FrontEnd {
  import opened Bits
  import opened BitStream
  import opened Codec
  import opened PhpCodec
  import opened Networks
  import opened Extraction
  import opened Catalogue
  import opened Formulas
  import opened Parsing
  import opened Phrases
  import opened Evaluating
  import opened Integers
  import opened Analysis
  import opened Analyzer
  import opened Solver
  import opened Wiring
  import opened Wrappers
  import opened Lists

  // ---- The stack of the token loop ----

  method PopOperators(output: seq<Code>, stack: seq<Entry>, op: Op, ghost names: seq<string>)
    returns (output': seq<Code>, stack': seq<Entry>)
    requires AllKnown(output, |names|)
    ensures AllKnown(output', |names|)
    ensures Yard(Named(output', names), stack') == PopFor(Yard(Named(output, names), stack), op)
  {
    output', stack' := output, stack;
    while |stack'| > 0
      invariant AllKnown(output', |names|)
      invariant PopFor(Yard(Named(output', names), stack'), op) == PopFor(Yard(Named(output, names), stack), op)
      decreases |stack'|
    {
      var top := stack'[|stack'| - 1];
      if top.Parens? {
        break;
      }
      if Precedence(top.op) < Precedence(op) {
        break;
      }
      if Precedence(top.op) == Precedence(op) && op == NOT {
        break;
      }
      NamedAppend(output', Apply(top.op), names);
      output', stack' := output' + [Apply(top.op)], stack'[..|stack'| - 1];
    }
  }

  method PopParens(output: seq<Code>, stack: seq<Entry>, ghost names: seq<string>)
    returns (output': seq<Code>, stack': seq<Entry>)
    requires AllKnown(output, |names|) && Parens in stack
    ensures AllKnown(output', |names|)
    ensures Yard(Named(output', names), stack') == PopToParens(Yard(Named(output, names), stack))
  {
    output', stack' := output, stack;
    while stack'[|stack'| - 1] != Parens
      invariant AllKnown(output', |names|) && Parens in stack'
      invariant PopToParens(Yard(Named(output', names), stack')) == PopToParens(Yard(Named(output, names), stack))
      decreases |stack'|
    {
      var top := stack'[|stack'| - 1];
      NamedAppend(output', Apply(top.op), names);
      assert stack' == stack'[..|stack'| - 1] + [top];
      output', stack' := output' + [Apply(top.op)], stack'[..|stack'| - 1];
    }
    stack' := stack'[..|stack'| - 1];
  }

  method DrainStack(output: seq<Code>, stack: seq<Entry>, ghost names: seq<string>)
    returns (output': seq<Code>, errors: nat)
    requires AllKnown(output, |names|)
    ensures AllKnown(output', |names|) && errors == OpenCount(stack)
    ensures Named(output', names) == Drain(Yard(Named(output, names), stack))
  {
    output', errors := output, 0;
    var rest := stack;
    while |rest| > 0
      invariant AllKnown(output', |names|) && errors + OpenCount(rest) == OpenCount(stack)
      invariant Drain(Yard(Named(output', names), rest)) == Drain(Yard(Named(output, names), stack))
      decreases |rest|
    {
      var top := rest[|rest| - 1];
      rest := rest[..|rest| - 1];
      if top.Parens? {
        errors := errors + 1;
      } else {
        NamedAppend(output', Apply(top.op), names);
        output' := output' + [Apply(top.op)];
      }
    }
  }

  lemma StepsOn(y: Yard, tokens: seq<Token>, i: nat)
    requires i < |tokens| && Steps(y, tokens[i..])
    ensures Possible(y, tokens[i]) && Steps(Step(y, tokens[i]), tokens[i + 1..])
    ensures Run(y, tokens[i..]) == Run(Step(y, tokens[i]), tokens[i + 1..])
  {
    assert tokens[i..][0] == tokens[i] && tokens[i..][1..] == tokens[i + 1..];
  }

  lemma NumberedOnce(names: seq<string>, token: Token)
    ensures Numbered(names, [token]) == if token.Name? && token.name !in names then names + [token.name] else names
  {
    assert [token][1..] == [];
  }

  // ---- Rendering ----

  method RenderCode(stack: seq<seq<Token>>, errors: nat, code: Code, names: seq<string>)
    returns (stack': seq<seq<Token>>, errors': nat)
    requires Known(code, |names|)
    ensures Rendering(stack', errors') == RenderItem(Rendering(stack, errors), ItemOf(code, names))
  {
    stack', errors' := stack, errors;
    match code
    case Constant(value) => stack' := stack + [[Digit(value)]];
    case Variable(v) => stack' := stack + [[Name(names[v])]];
    case Apply(op) =>
      if op == NOT {
        if |stack| < 1 {
          errors' := errors + 1;
        } else {
          var a := stack[|stack| - 1];
          stack' := stack[..|stack| - 1] + [[Operator(NOT)] + a];
        }
      } else if |stack| < 2 {
        errors' := errors + 1;
      } else {
        var a, b := stack[|stack| - 1], stack[|stack| - 2];
        stack' := stack[..|stack| - 2] + [[Open] + (b + [Operator(op)] + a) + [Close]];
      }
  }

  method RenderCodes(codes: seq<Code>, names: seq<string>) returns (stack: seq<seq<Token>>, errors: nat)
    requires AllKnown(codes, |names|)
    ensures Rendering(stack, errors) == RenderAll(Rendering([], 0), Named(codes, names))
  {
    stack, errors := [], 0;
    var i := 0;
    ghost var items := Named(codes, names);
    while i < |codes|
      invariant i <= |codes| && Rendering(stack, errors) == RenderAll(Rendering([], 0), items[..i])
    {
      RenderOneMore(Rendering([], 0), items[..i], items[i]);
      assert items[..i + 1] == items[..i] + [items[i]];
      stack, errors := RenderCode(stack, errors, codes[i], names);
      i := i + 1;
    }
    assert items[..i] == items;
  }

  // ---- Evaluation ----

  /** Row `l` of the truth table, for the first `n` postfix lists. */
  function TableRow(operations: seq<seq<Code>>, n: nat, l: nat): (row: set<nat>)
    requires n <= |operations|
  {
    set k | 0 <= k < n && Evaluated(operations[k], l)
  }

  ghost predicate IsTruthTable(table: TruthTable, operations: seq<seq<Code>>, n: nat, inputs: nat)
    requires n <= |operations|
  {
    |table| == Pow2(inputs) && forall l :: 0 <= l < |table| ==> table[l] == TableRow(operations, n, l)
  }

  lemma RowsAreBelow(table: TruthTable, operations: seq<seq<Code>>, inputs: nat)
    requires IsTruthTable(table, operations, |operations|, inputs)
    ensures |table| == Pow2(inputs) && forall t :: 0 <= t < |table| ==> table[t] <= Below(|operations|)
  {
  }

  method EvaluateRow(codes: seq<Code>, l: nat) returns (value: bool)
    ensures value == Evaluated(codes, l)
  {
    var stack: Word := Unit(false);
    var i := 0;
    assert codes[0..] == codes;
    while i < |codes|
      invariant i <= |codes| && PerformAll(stack, codes[i..], l) == PerformAll(Unit(false), codes, l)
    {
      assert codes[i..][1..] == codes[i + 1..];
      stack := Perform(stack, codes[i], l);
      i := i + 1;
    }
    value := stack[0];
  }

  // ---- Keys ----

  /** The columns of the compressed table. */
  function NewColumns(modified: TruthTable, count: nat): (columns: seq<Column>)
    ensures |columns| == count && forall o :: 0 <= o < count ==> columns[o] == MaskColumn(modified, o)
  {
    seq(count, o requires 0 <= o < count => MaskColumn(modified, o))
  }

  function BoolBit(b: bool): (v: nat)
    ensures v < 2 && BitsOf(v, 1) == [b]
  {
    if b then 1 else 0
  }

  method PutBit(enc: Base64Encoder, b: bool)
    requires enc.Valid()
    modifies enc
    ensures enc.Valid() && enc.stream == old(enc.stream) + [b]
  {
    assert Pow2(1) == 2;
    enc.Put(BoolBit(b), 1);
  }

  /** Puts one column, a bit for each row. */
  method PutColumn(enc: Base64Encoder, modified: TruthTable, n: nat)
    requires enc.Valid()
    modifies enc
    ensures enc.Valid() && enc.stream == old(enc.stream) + MaskColumn(modified, n)
  {
    ghost var c := MaskColumn(modified, n);
    var t := 0;
    assert c[..0] == [] && old(enc.stream) + [] == old(enc.stream);
    while t < |modified|
      invariant t <= |modified| && enc.Valid() && enc.stream == old(enc.stream) + c[..t]
    {
      PutBit(enc, n in modified[t]);
      assert c[..t + 1] == c[..t] + [c[t]];
      Reassociate(old(enc.stream), c[..t], [c[t]]);
      t := t + 1;
    }
    assert c[..t] == c;
  }

  method PutColumns(enc: Base64Encoder, modified: TruthTable, count: nat)
    requires enc.Valid()
    modifies enc
    ensures enc.Valid() && enc.stream == old(enc.stream) + Concat(NewColumns(modified, count))
  {
    ghost var columns := NewColumns(modified, count);
    var n := 0;
    assert Concat(columns[..0]) == [] && old(enc.stream) + [] == old(enc.stream);
    while n < count
      invariant n <= count && enc.Valid() && enc.stream == old(enc.stream) + Concat(columns[..n])
    {
      PutColumn(enc, modified, n);
      ConcatNext(columns, n);
      Reassociate(old(enc.stream), Concat(columns[..n]), columns[n]);
      n := n + 1;
    }
    assert columns[..n] == columns;
  }

  /** One of the phrases of a query. */
  datatype Phrase = Phrase(name: string, tokens: seq<Token>)

  /** `interpreted_phrases`: the rendering, "?" if there is none */
  function Interpretation(r: Rendering): Option<seq<Token>> {
    if r.stack == [] then None else Some(r.stack[|r.stack| - 1])
  }

  /** The variables are numbered in the order of their names in the list. */
  ghost predicate Numbering(variables: map<string, nat>, names: seq<string>) {
    && |variables| == |names|
    && (forall name :: name in variables ==> variables[name] < |names| && names[variables[name]] == name)
    && forall i :: 0 <= i < |names| ==> names[i] in variables && variables[names[i]] == i
  }

  lemma NumberingGrows(variables: map<string, nat>, names: seq<string>, name: string)
    requires Numbering(variables, names) && name !in variables
    ensures Numbering(variables[name := |names|], names + [name]) && name !in names
  {
  }

  lemma NumberingIsDistinct(variables: map<string, nat>, names: seq<string>)
    requires Numbering(variables, names)
    ensures Distinct(names)
  {
  }

  lemma AllKnownGrows(operations: seq<seq<Code>>, m: nat, n: nat)
    requires m <= n && forall k :: 0 <= k < |operations| ==> AllKnown(operations[k], m)
    ensures forall k :: 0 <= k < |operations| ==> AllKnown(operations[k], n)
  {
  }

  method NamesOf(numbers: seq<nat>, names: seq<string>) returns (list: seq<string>)
    requires Distinct(names) && forall m :: m in numbers ==> m < |names|
    ensures forall m: nat :: m < |names| ==> (names[m] in list <==> m in numbers)
  {
    list := [];
    var i := 0;
    while i < |numbers|
      invariant i <= |numbers|
      invariant forall m: nat :: m < |names| ==> (names[m] in list <==> m in numbers[..i])
    {
      assert numbers[i] in numbers;
      list := list + [names[numbers[i]]];
      i := i + 1;
    }
    assert numbers[..i] == numbers;
  }

  /** The unused names are those of the discarded variables. */
  ghost predicate UnusedNames(names: seq<string>, unused: seq<string>, off: set<nat>) {
    forall m: nat :: m < |names| ==> (names[m] in unused <==> m in off)
  }

  method NormalizeTable(table: TruthTable, names: seq<string>, outputs: nat)
    returns (form: NormalForm, unusedNames: seq<string>, ghost order: seq<nat>, ghost alias: map<nat, nat>)
    requires Distinct(names) && |table| == Pow2(|names|) && forall t :: 0 <= t < |table| ==> table[t] <= Below(outputs)
    ensures IsNormalForm(table, |names|, outputs, order, alias, form)
    ensures UnusedNames(names, unusedNames, form.off)
  {
    var unused;
    form, unused, order, alias := AnalyzeTable(table, |names|, outputs);
    unusedNames := NamesOf(unused, names);
  }

  method EncodeKey(modified: TruthTable, inputs: nat, outputs: nat) returns (key: string)
    requires inputs < 32 && outputs < 32
    ensures Encodes(BASE64_CSET, key, KeyBits(inputs, NewColumns(modified, outputs)))
  {
    ghost var columns := NewColumns(modified, outputs);
    var enc := new Base64Encoder();
    assert Pow2(5) == 32;
    enc.Put(inputs, 5);
    enc.Put(outputs, 5);
    assert [] + BitsOf(inputs, 5) == BitsOf(inputs, 5);
    PutColumns(enc, modified, outputs);
    key := enc.Get();
  }

  // ---- The logic map ----

  /** No two variables are fed into the same place. */
  ghost predicate PlacesDiffer(inputMapping: seq<Option<nat>>) {
    forall i, j :: 0 <= i < j < |inputMapping| && inputMapping[i].Some? && inputMapping[j].Some? ==>
      inputMapping[i].value != inputMapping[j].value
  }

  method ReversePlaces(inputMapping: seq<Option<nat>>) returns (reverse: map<nat, nat>)
    requires PlacesDiffer(inputMapping)
    ensures Reverses(reverse, inputMapping)
  {
    reverse := map[];
    var m := 0;
    while m < |inputMapping|
      invariant m <= |inputMapping| && Reverses(reverse, inputMapping[..m])
    {
      ReverseOneMore(reverse, inputMapping, m);
      if inputMapping[m].Some? {
        reverse := reverse[inputMapping[m].value := m];
      }
      m := m + 1;
    }
    assert inputMapping[..m] == inputMapping;
  }

  lemma ReverseOneMore(reverse: map<nat, nat>, inputMapping: seq<Option<nat>>, m: nat)
    requires PlacesDiffer(inputMapping) && m < |inputMapping| && Reverses(reverse, inputMapping[..m])
    ensures inputMapping[m].Some? ==> Reverses(reverse[inputMapping[m].value := m], inputMapping[..m + 1])
    ensures inputMapping[m].None? ==> Reverses(reverse, inputMapping[..m + 1])
  {
    var front, more := inputMapping[..m], inputMapping[..m + 1];
    forall w | w in reverse
      ensures inputMapping[m] != Some(w)
    {
      assert front[reverse[w]] == inputMapping[reverse[w]];
    }
    assert forall k :: 0 <= k < m ==> more[k] == front[k];
  }

  method WireGates(gateFrom: seq<seq<Source>>, names: seq<string>, reverse: map<nat, nat>) returns (logic: LogicMap)
    ensures PinsBuilt(logic, gateFrom, names, reverse) && NothingElse(logic, gateFrom, [])
  {
    logic := map[];
    var g := 0;
    while g < |gateFrom|
      invariant g <= |gateFrom| && NothingElse(logic, gateFrom, [])
      invariant forall h :: 0 <= h < g ==> PinsOf(logic, h, gateFrom[h], names, reverse)
    {
      logic := WireGate(logic, g, gateFrom, names, reverse);
      g := g + 1;
    }
  }

  lemma OtherPinsStay(logic: LogicMap, g: nat, index: nat, wire: Wire, h: nat, sources: seq<Source>,
                      names: seq<string>, reverse: map<nat, nat>)
    requires h != g && PinsOf(logic, h, sources, names, reverse)
    ensures PinsOf(logic[Pin(g, index) := wire], h, sources, names, reverse)
  {
    forall i | 0 <= i < |sources|
      ensures PinFed(logic[Pin(g, index) := wire], h, i, sources[i], names, reverse)
    {
      assert PinFed(logic, h, i, sources[i], names, reverse);
    }
  }

  lemma PinAdded(logic: LogicMap, g: nat, sources: seq<Source>, index: nat, names: seq<string>, reverse: map<nat, nat>)
    requires index < |sources| && PinsOf(logic, g, sources[..index], names, reverse)
    ensures PinsOf(logic[Pin(g, index + 1) := SourceWire(sources[index], names, reverse)], g, sources[..index + 1], names, reverse)
  {
    var more := logic[Pin(g, index + 1) := SourceWire(sources[index], names, reverse)];
    var taken := sources[..index + 1];
    forall i | 0 <= i < |taken|
      ensures PinFed(more, g, i, taken[i], names, reverse)
    {
      if i < index {
        assert PinFed(logic, g, i, sources[..index][i], names, reverse);
      }
    }
  }

  method WireGate(before: LogicMap, g: nat, gateFrom: seq<seq<Source>>, names: seq<string>, reverse: map<nat, nat>)
    returns (logic: LogicMap)
    requires g < |gateFrom| && forall h :: 0 <= h < g ==> PinsOf(before, h, gateFrom[h], names, reverse)
    requires NothingElse(before, gateFrom, [])
    ensures NothingElse(logic, gateFrom, [])
    ensures forall h :: 0 <= h <= g ==> PinsOf(logic, h, gateFrom[h], names, reverse)
  {
    logic := before;
    var index := 0;
    while index < |gateFrom[g]|
      invariant index <= |gateFrom[g]| && NothingElse(logic, gateFrom, [])
      invariant forall h :: 0 <= h < g ==> PinsOf(logic, h, gateFrom[h], names, reverse)
      invariant PinsOf(logic, g, gateFrom[g][..index], names, reverse)
    {
      var wire := SourceWire(gateFrom[g][index], names, reverse);
      forall h | 0 <= h < g
        ensures PinsOf(logic[Pin(g, index + 1) := wire], h, gateFrom[h], names, reverse)
      {
        OtherPinsStay(logic, g, index + 1, wire, h, gateFrom[h], names, reverse);
      }
      PinAdded(logic, g, gateFrom[g], index, names, reverse);
      logic := logic[Pin(g, index + 1) := wire];
      index := index + 1;
    }
    assert gateFrom[g][..index] == gateFrom[g];
  }

  ghost predicate OutputsBuilt(logic: LogicMap, outputNames: seq<string>, mapping: map<nat, Target>, n: nat,
                               names: seq<string>, outFrom: seq<Source>, found: bool)
  {
    n <= |outputNames| && forall k :: 0 <= k < n ==> k in mapping && OutputBuilt(logic, outputNames[k], mapping[k], names, outFrom, found)
  }

  method WireOutputs(pins: LogicMap, outputNames: seq<string>, mapping: map<nat, Target>, outputs: nat,
                     names: seq<string>,
                     outFrom: seq<Source>, found: bool, ghost gateFrom: seq<seq<Source>>) returns (logic: LogicMap)
    requires |outputNames| == outputs && Distinct(outputNames) && mapping.Keys == Below(outputs)
    requires NothingElse(pins, gateFrom, [])
    ensures NothingElse(logic, gateFrom, outputNames)
    ensures OutputsBuilt(logic, outputNames, mapping, outputs, names, outFrom, found)
    ensures forall g, i :: Pin(g, i) in pins ==> Pin(g, i) in logic && logic[Pin(g, i)] == pins[Pin(g, i)]
  {
    logic := pins;
    assert forall k :: 0 <= k < outputs ==> !Belongs(Out(outputNames[k]), gateFrom, []);
    var n := 0;
    while n < outputs
      invariant NothingElse(logic, gateFrom, outputNames)
      invariant n <= outputs && OutputsBuilt(logic, outputNames, mapping, n, names, outFrom, found)
      invariant forall k :: n <= k < outputs ==> Out(outputNames[k]) !in logic
      invariant forall g, i :: Pin(g, i) in pins ==> Pin(g, i) in logic && logic[Pin(g, i)] == pins[Pin(g, i)]
    {
      var wire := TargetWire(mapping[n], names, outFrom, found);
      if wire.Some? {
        logic := logic[Out(outputNames[n]) := wire.value];
      }
      n := n + 1;
    }
  }

  lemma PinsStay(pins: LogicMap, logic: LogicMap, gateFrom: seq<seq<Source>>, names: seq<string>,
                 reverse: map<nat, nat>)
    requires PinsBuilt(pins, gateFrom, names, reverse)
    requires forall g, i :: Pin(g, i) in pins ==> Pin(g, i) in logic && logic[Pin(g, i)] == pins[Pin(g, i)]
    ensures PinsBuilt(logic, gateFrom, names, reverse)
  {
    forall g | 0 <= g < |gateFrom|
      ensures PinsOf(logic, g, gateFrom[g], names, reverse)
    {
      assert PinsOf(pins, g, gateFrom[g], names, reverse);
      forall i | 0 <= i < |gateFrom[g]|
        ensures PinFed(logic, g, i, gateFrom[g][i], names, reverse)
      {
        assert PinFed(pins, g, i, gateFrom[g][i], names, reverse);
      }
    }
  }

  /** Queries the database for the key and decodes the row. */
  method FetchSolution(key: string, database: map<string, Row>, ghost inputs: nat, ghost columns: seq<Column>)
    returns (solver: Solver)
    requires EncodesTable(key, inputs, columns) && SoundDatabase(database)
    ensures fresh(solver)
    ensures solver.numGates == (if inputs > 0 && |columns| > 0 && key in database then database[key].gates else 0)
    ensures solver.numGates > 0 <==> inputs > 0 && |columns| > 0 && key in database
    ensures |solver.gateFrom| == solver.numGates
    ensures solver.numGates > 0 ==>
      InputsInRange(solver.gateFrom, inputs) && Delivers(solver.gateFrom, solver.outFrom, inputs, columns)
  {
    if key in database {
      assert SoundRow(database[key], inputs, columns);
      solver := FetchRow(key, database[key], inputs, columns);
    } else {
      solver := DecodeRow(key, None, inputs, columns, [], []);
    }
  }

  method FetchRow(key: string, row: Row, ghost inputs: nat, ghost columns: seq<Column>) returns (solver: Solver)
    requires EncodesTable(key, inputs, columns) && SoundRow(row, inputs, columns)
    ensures fresh(solver)
    ensures solver.numGates == (if inputs > 0 && |columns| > 0 then row.gates else 0)
    ensures solver.numGates > 0 <==> inputs > 0 && |columns| > 0
    ensures |solver.gateFrom| == solver.numGates
    ensures solver.numGates > 0 ==>
      InputsInRange(solver.gateFrom, inputs) && Delivers(solver.gateFrom, solver.outFrom, inputs, columns)
  {
    ghost var gateInputs, outputs := RowSays(row, inputs, columns);
    TwoEach(gateInputs, row.gates);
    solver := DecodeRow(key, Some(row), inputs, columns, gateInputs, outputs);
    if solver.numGates > 0 {
      ReadDelivers(solver.gateFrom, solver.outFrom, inputs, gateInputs, outputs, columns);
    }
  }

  /** What a sound row holds. */
  lemma RowSays(row: Row, inputs: nat, columns: seq<Column>) returns (gateInputs: seq<nat>, outputs: seq<nat>)
    requires SoundRow(row, inputs, columns)
    ensures RowHolds(row, gateInputs, outputs) && ComputesColumns(gateInputs, inputs, outputs, columns)
    ensures |outputs| == |columns| && row.gates > 0
  {
    gateInputs, outputs :| RowHolds(row, gateInputs, outputs) && ComputesColumns(gateInputs, inputs, outputs, columns);
  }

  lemma TwoEach(gateInputs: seq<nat>, gates: nat)
    requires |gateInputs| == 2 * gates
    ensures |gateInputs| % 2 == 0
  {
  }

  lemma ReadDelivers(gateFrom: seq<seq<Source>>, outFrom: seq<Source>, inputs: nat, gateInputs: seq<nat>,
                     outputs: seq<nat>,
                     columns: seq<Column>)
    requires |gateInputs| % 2 == 0 && GatesRead(gateFrom, gateInputs, inputs, |gateInputs|)
      && OutputsRead(outFrom, outputs)
    requires ComputesColumns(gateInputs, inputs, outputs, columns)
    ensures InputsInRange(gateFrom, inputs) && Delivers(gateFrom, outFrom, inputs, columns)
  {
    SoundRowDelivers(gateFrom, outFrom, inputs, gateInputs, outputs, columns);
  }

  method DecodeRow(key: string, row: Option<Row>, ghost inputs: nat, ghost columns: seq<Column>,
                   ghost gateInputs: seq<nat>, ghost outputs: seq<nat>) returns (solver: Solver)
    requires inputs < 32 && |columns| < 32 && Encodes(BASE64_CSET, key, KeyBits(inputs, columns))
    requires row.Some? ==> |outputs| == |columns| && RowHolds(row.value, gateInputs, outputs)
    ensures fresh(solver)
    ensures inputs > 0 && |columns| > 0 && row.Some? ==>
      solver.numGates == row.value.gates
      && GatesRead(solver.gateFrom, gateInputs, inputs, |gateInputs|) && OutputsRead(solver.outFrom, outputs)
    ensures inputs == 0 || |columns| == 0 || row.None? ==> solver.numGates == 0 && solver.gateFrom == []
  {
    HeaderOfKey(key, inputs, columns);
    solver := new Solver(key);
    solver.Solve(row, inputs, |columns|, gateInputs, outputs);
  }

  method BuildLogic(gateFrom: seq<seq<Source>>, outFrom: seq<Source>, found: bool, reverse: map<nat, nat>,
                    names: seq<string>,
                    outputNames: seq<string>, mapping: map<nat, Target>) returns (logic: LogicMap)
    requires Distinct(outputNames) && mapping.Keys == Below(|outputNames|) && (!found ==> gateFrom == [])
    ensures PinsBuilt(logic, gateFrom, names, reverse)
    ensures OutputsBuilt(logic, outputNames, mapping, |outputNames|, names, outFrom, found)
    ensures NothingElse(logic, gateFrom, outputNames)
  {
    var pins: LogicMap := map[];
    if found {
      pins := WireGates(gateFrom, names, reverse);
    }
    logic := WireOutputs(pins, outputNames, mapping, |outputNames|, names, outFrom, found, gateFrom);
    PinsStay(pins, logic, gateFrom, names, reverse);
  }

  class Parser {
    var variables: map<string, nat>
    var varNames: seq<string>
    var outputNames: seq<string>
    var operations: seq<seq<Code>>
    var interpreted: map<string, Option<seq<Token>>>
    var parseErrors: nat
    var truthTable: TruthTable
    var numInputs: nat
    var numOutputs: nat
    var unusedVariables: seq<string>
    var inputMapping: seq<Option<nat>>
    var outputMapping: map<nat, Target>
    var modifiedTruthTable: TruthTable
    var key: string
    var numGates: nat
    var logicMap: LogicMap

    /** Variables are numbered without gaps, and the postfix lists only use numbered ones. */
    ghost predicate Valid()
      reads this`variables, this`varNames, this`operations, this`outputNames
    {
      && Numbering(variables, varNames) && |outputNames| == |operations|
      && forall n :: 0 <= n < |operations| ==> AllKnown(operations[n], |varNames|)
    }

    constructor ()
      ensures Valid() && varNames == [] && operations == [] && interpreted == map[] && parseErrors == 0
      ensures truthTable == modifiedTruthTable == [] && numInputs == numOutputs == numGates == 0
      ensures inputMapping == [] && outputMapping == map[] && unusedVariables == [] && key == "" && logicMap == map[]
    {
      variables, varNames, outputNames, operations, interpreted, parseErrors := map[], [], [], [], map[], 0;
      truthTable, numInputs, numOutputs, unusedVariables := [], 0, 0, [];
      inputMapping, outputMapping, modifiedTruthTable := [], map[], [];
      key, numGates, logicMap := "", 0, map[];
    }

    method GetVar(name: string) returns (v: nat)
      requires Valid()
      modifies this`variables, this`varNames
      ensures Valid() && varNames == Numbered(old(varNames), [Name(name)])
      ensures v < |varNames| && varNames[v] == name
    {
      NumberedOnce(varNames, Name(name));
      var c := |variables|;
      if name in variables {
        return variables[name];
      }
      v := c;
      NumberingGrows(variables, varNames, name);
      AllKnownGrows(operations, |varNames|, |varNames| + 1);
      varNames := varNames + [name];
      variables := variables[name := v];
    }

    method ParseToken(output: seq<Code>, stack: seq<Entry>, token: Token)
      returns (output': seq<Code>, stack': seq<Entry>)
      requires Valid() && AllKnown(output, |varNames|) && Possible(Yard(Named(output, varNames), stack), token)
      modifies this`variables, this`varNames
      ensures Valid() && varNames == Numbered(old(varNames), [token])
      ensures AllKnown(output', |varNames|)
      ensures Yard(Named(output', varNames), stack') == Step(Yard(Named(output, old(varNames)), stack), token)
    {
      NumberedOnce(varNames, token);
      output', stack' := output, stack;
      match token
      case Operator(op) =>
        output', stack' := PopOperators(output, stack, op, varNames);
        stack' := stack' + [Waiting(op)];
      case Open => stack' := stack + [Parens];
      case Close => output', stack' := PopParens(output, stack, varNames);
      case Digit(value) =>
        NamedAppend(output, Constant(value), varNames);
        output' := output + [Constant(value)];
      case Name(name) =>
        ghost var names := varNames;
        var v := GetVar(name);
        NamedGrows(output, names, varNames);
        NamedAppend(output, Variable(v), varNames);
        output' := output + [Variable(v)];
    }

    /** The token loop. A closing parenthesis without an open one would never end it. */
    method ParseTokens(tokens: seq<Token>) returns (output: seq<Code>, stack: seq<Entry>)
      requires Valid() && Steps(Yard([], []), tokens)
      modifies this`variables, this`varNames
      ensures Valid() && varNames == Numbered(old(varNames), tokens)
      ensures AllKnown(output, |varNames|) && Yard(Named(output, varNames), stack) == Run(Yard([], []), tokens)
    {
      output, stack := [], [];
      var i := 0;
      assert tokens[0..] == tokens && Named(output, varNames) == [] && tokens[..0] == [];
      while i < |tokens|
        invariant i <= |tokens| && Valid() && AllKnown(output, |varNames|)
        invariant varNames == Numbered(old(varNames), tokens[..i])
        invariant Steps(Yard(Named(output, varNames), stack), tokens[i..])
        invariant Run(Yard(Named(output, varNames), stack), tokens[i..]) == Run(Yard([], []), tokens)
      {
        StepsOn(Yard(Named(output, varNames), stack), tokens, i);
        NumberedAppend(old(varNames), tokens[..i], [tokens[i]]);
        assert tokens[..i + 1] == tokens[..i] + [tokens[i]];
        output, stack := ParseToken(output, stack, tokens[i]);
        i := i + 1;
      }
      assert tokens[i..] == [] && tokens[..i] == tokens;
    }

    /** Open parentheses that are never closed are counted as errors. */
    method DoParse(tokens: seq<Token>) returns (output: seq<Code>)
      requires Valid() && Steps(Yard([], []), tokens)
      modifies this`variables, this`varNames, this`parseErrors
      ensures Valid() && varNames == Numbered(old(varNames), tokens)
      ensures AllKnown(output, |varNames|) && Named(output, varNames) == Parsed(tokens)
      ensures parseErrors == old(parseErrors) + OpenCount(Run(Yard([], []), tokens).stack)
    {
      var pending, stack := ParseTokens(tokens);
      var errors;
      output, errors := DrainStack(pending, stack, varNames);
      parseErrors := parseErrors + errors;
    }

    method AddPhrase(name: string, codes: seq<Code>)
      requires Valid() && AllKnown(codes, |varNames|)
      modifies this`operations, this`outputNames
      ensures Valid() && outputNames == old(outputNames) + [name] && operations == old(operations) + [codes]
    {
      outputNames := outputNames + [name];
      operations := operations + [codes];
    }

    method Interpret(name: string, codes: seq<Code>)
      requires AllKnown(codes, |varNames|)
      modifies this`parseErrors, this`interpreted
      ensures var r := RenderAll(Rendering([], 0), Named(codes, varNames));
        parseErrors == ErrorsIn(r) && interpreted == old(interpreted)[name := Interpretation(r)]
    {
      var stack, errors := RenderCodes(codes, varNames);
      if |stack| != 1 {
        errors := errors + 1;
      }
      interpreted := interpreted[name := if |stack| == 0 then None else Some(stack[|stack| - 1])];
      parseErrors := errors;
    }

    /** Parses one phrase and renders it. The errors that DoParse has counted are forgotten. */
    method ParseOne(phrase: Phrase)
      requires Valid() && Steps(Yard([], []), phrase.tokens)
      modifies this`variables, this`varNames, this`parseErrors, this`operations, this`outputNames, this`interpreted
      ensures Valid() && varNames == Numbered(old(varNames), phrase.tokens)
      ensures outputNames == old(outputNames) + [phrase.name]
      ensures |operations| == |old(operations)| + 1 && operations[..|old(operations)|] == old(operations)
      ensures Named(operations[|old(operations)|], varNames) == Parsed(phrase.tokens)
      ensures var r := RenderAll(Rendering([], 0), Parsed(phrase.tokens));
        parseErrors == ErrorsIn(r) && interpreted == old(interpreted)[phrase.name := Interpretation(r)]
    {
      var codes := DoParse(phrase.tokens);
      AddPhrase(phrase.name, codes);
      Interpret(phrase.name, codes);
    }

    method Evaluate()
      requires Valid()
      modifies this`truthTable
      ensures IsTruthTable(truthTable, operations, |operations|, |varNames|)
    {
      truthTable := seq(Pow2(|variables|), l => {});
      var n := 0;
      while n < |operations|
        invariant n <= |operations| && IsTruthTable(truthTable, operations, n, |varNames|)
      {
        DoEvaluate(n);
        n := n + 1;
      }
    }

    method DoEvaluate(n: nat)
      requires Valid() && n < |operations| && IsTruthTable(truthTable, operations, n, |varNames|)
      modifies this`truthTable
      ensures IsTruthTable(truthTable, operations, n + 1, |varNames|)
    {
      var length := Pow2(|variables|);
      var l := 0;
      while l < length
        invariant l <= length == |truthTable|
        invariant forall k :: 0 <= k < l ==> truthTable[k] == TableRow(operations, n + 1, k)
        invariant forall k :: l <= k < length ==> truthTable[k] == TableRow(operations, n, k)
      {
        var value := EvaluateRow(operations[n], l);
        truthTable := truthTable[l := truthTable[l] + if value then {n} else {}];
        l := l + 1;
      }
    }

    /** Analyze, for some course of the sort of the outputs. */
    method Analyze() returns (ghost off: set<nat>, ghost order: seq<nat>, ghost alias: map<nat, nat>)
      requires Valid() && IsTruthTable(truthTable, operations, |operations|, |varNames|)
      modifies this`numInputs, this`numOutputs, this`unusedVariables
      modifies this`outputMapping, this`inputMapping, this`modifiedTruthTable
      ensures IsNormalForm(old(truthTable), |old(varNames)|, |old(operations)|, order, alias, Form(off))
      ensures UnusedNames(old(varNames), unusedVariables, off)
    {
      RowsAreBelow(truthTable, operations, |varNames|);
      NumberingIsDistinct(variables, varNames);
      var form, names;
      form, names, order, alias := NormalizeTable(truthTable, varNames, |operations|);
      off := form.off;
      Store(form, names);
    }

    function Form(off: set<nat>): NormalForm
      reads this`outputMapping, this`modifiedTruthTable, this`numOutputs, this`inputMapping, this`numInputs
    {
      NormalForm(off, outputMapping, modifiedTruthTable, numOutputs, inputMapping, numInputs)
    }

    method Store(form: NormalForm, names: seq<string>)
      modifies this`numInputs, this`numOutputs, this`unusedVariables
      modifies this`outputMapping, this`inputMapping, this`modifiedTruthTable
      ensures Form(form.off) == form && unusedVariables == names
    {
      outputMapping, modifiedTruthTable, inputMapping := form.mapping, form.modified, form.inputMapping;
      numOutputs, numInputs, unusedVariables := form.numOutputs, form.numInputs, names;
    }

    /** The key under which a network for the compressed table is stored. */
    method LookUp() returns (result: string)
      requires numInputs < 32 && numOutputs < 32
      ensures Encodes(BASE64_CSET, result, KeyBits(numInputs, NewColumns(modifiedTruthTable, numOutputs)))
    {
      result := EncodeKey(modifiedTruthTable, numInputs, numOutputs);
    }

    /** Looks the network up and wires it to the variables and outputs of the query. */
    method Solve(database: map<string, Row>)
      returns (ghost gateFrom: seq<seq<Source>>, ghost outFrom: seq<Source>, ghost reverse: map<nat, nat>)
      requires numInputs < 32 && numOutputs < 32 && |modifiedTruthTable| == Pow2(numInputs) && SoundDatabase(database)
      requires |outputNames| == |operations| && Distinct(outputNames) && outputMapping.Keys == Below(|operations|)
      requires PlacesDiffer(inputMapping)
      modifies this`key, this`numGates, this`logicMap
      ensures Encodes(BASE64_CSET, key, KeyBits(numInputs, NewColumns(modifiedTruthTable, numOutputs)))
      ensures numGates == if numInputs > 0 && numOutputs > 0 && key in database then database[key].gates else 0
      ensures numGates > 0 <==> numInputs > 0 && numOutputs > 0 && key in database
      ensures numGates > 0 ==> InputsInRange(gateFrom, numInputs)
      ensures numGates > 0 ==> Delivers(gateFrom, outFrom, numInputs, NewColumns(modifiedTruthTable, numOutputs))
      ensures |gateFrom| == numGates && NothingElse(logicMap, gateFrom, outputNames)
      ensures Reverses(reverse, inputMapping) && PinsBuilt(logicMap, gateFrom, varNames, reverse)
      ensures OutputsBuilt(logicMap, outputNames, outputMapping, |operations|, varNames, outFrom, numGates > 0)
    {
      var result := LookUp();
      key := result;
      var solver := FetchSolution(key, database, numInputs, NewColumns(modifiedTruthTable, numOutputs));
      numGates := solver.numGates;
      gateFrom, outFrom := solver.gateFrom, solver.outFrom;
      var places := ReversePlaces(inputMapping);
      reverse := places;
      logicMap := BuildLogic(solver.gateFrom, solver.outFrom, solver.numGates > 0, places, varNames, outputNames,
                             outputMapping);
    }

    /** Parses all phrases of a query. */
    method Parse(phrases: seq<Phrase>)
      requires Valid() && operations == [] && forall k :: 0 <= k < |phrases| ==> Steps(Yard([], []), phrases[k].tokens)
      modifies this`variables, this`varNames, this`parseErrors, this`operations, this`outputNames, this`interpreted
      ensures Valid() && AllParsed(phrases, outputNames, operations, varNames)
      ensures varNames == NamesIn(old(varNames), phrases)
    {
      var k := 0;
      assert phrases[..0] == [];
      while k < |phrases|
        invariant k <= |phrases| && Valid() && |operations| == k
        invariant AllParsed(phrases[..k], outputNames, operations, varNames)
        invariant varNames == NamesIn(old(varNames), phrases[..k])
      {
        ghost var before, parsed, names := outputNames, operations, varNames;
        ParseOne(phrases[k]);
        OneMoreParsed(phrases, k, before, parsed, names, outputNames, operations, varNames);
        assert phrases[..k + 1][..k] == phrases[..k];
        k := k + 1;
      }
      assert phrases[..k] == phrases;
    }
  }

  /** All variables, in the order in which they first occur. */
  function NamesIn(names: seq<string>, phrases: seq<Phrase>): seq<string> {
    if phrases == [] then names
    else Numbered(NamesIn(names, phrases[..|phrases| - 1]), phrases[|phrases| - 1].tokens)
  }

  ghost predicate AllParsed(phrases: seq<Phrase>, outputNames: seq<string>, operations: seq<seq<Code>>,
                            names: seq<string>)
  {
    && |outputNames| == |operations| == |phrases|
    && forall k :: 0 <= k < |phrases| ==> PhraseParsed(phrases[k], outputNames[k], operations[k], names)
  }

  lemma OneMoreParsed(phrases: seq<Phrase>, k: nat, outputNames: seq<string>, operations: seq<seq<Code>>,
                      names: seq<string>,
                      outputNames': seq<string>, operations': seq<seq<Code>>, names': seq<string>)
    requires k < |phrases| && AllParsed(phrases[..k], outputNames, operations, names) && names <= names'
    requires outputNames' == outputNames + [phrases[k].name]
    requires |operations'| == k + 1 && operations'[..k] == operations
    requires PhraseParsed(phrases[k], outputNames'[k], operations'[k], names')
    ensures AllParsed(phrases[..k + 1], outputNames', operations', names')
  {
    forall j | 0 <= j < k
      ensures PhraseParsed(phrases[j], outputNames'[j], operations'[j], names')
    {
      assert operations'[j] == operations[j] && phrases[..k][j] == phrases[j];
      assert PhraseParsed(phrases[..k][j], outputNames[j], operations[j], names);
      NamedGrows(operations[j], names, names');
    }
  }

  /** The postfix list of a phrase, over the variables of the whole query. */
  ghost predicate PhraseParsed(phrase: Phrase, name: string, codes: seq<Code>, names: seq<string>) {
    && name == phrase.name && Steps(Yard([], []), phrase.tokens)
    && AllKnown(codes, |names|) && Named(codes, names) == Parsed(phrase.tokens)
  }
}
