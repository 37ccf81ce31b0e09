/** The front end from end to end: evaluating the logic map on named variables gives every
    output the value of its formula. */
module EndToEnd {
  import opened Bits
  import opened Networks
  import opened Extraction
  import opened Formulas
  import opened Parsing
  import opened Phrases
  import opened Evaluating
  import opened Integers
  import opened TableRows
  import opened Comparator
  import opened Analysis
  import opened Analyzer
  import opened Assignments
  import opened Solver
  import opened Wiring
  import opened FrontEnd
  import opened Wrappers
  import opened Lists

  // ---- The compressed row ----

  /** Every place of the compressed table is fed by a kept variable. */
  lemma {:induction false} PlaceHasVariable(inputs: nat, off: set<nat>, v: nat) returns (m: nat)
    requires v < Rank(inputs, off)
    ensures m < inputs && m !in off && Rank(m, off) == v
  {
    if v < Rank(inputs - 1, off) {
      m := PlaceHasVariable(inputs - 1, off, v);
    } else {
      m := inputs - 1;
    }
  }

  lemma PlacesAreDistinct(inputMapping: seq<Option<nat>>, off: set<nat>)
    requires forall m :: 0 <= m < |inputMapping| ==> inputMapping[m] == InputPlace(m, off)
    ensures PlacesDiffer(inputMapping)
  {
    forall i, j | 0 <= i < j < |inputMapping| && inputMapping[i].Some? && inputMapping[j].Some?
      ensures inputMapping[i].value != inputMapping[j].value
    {
      RankMonotone(i, j, off);
    }
  }

  lemma CompressedRowIsFed(env: string -> bool, names: seq<string>, l: nat, off: set<nat>,
                           inputMapping: seq<Option<nat>>, reverse: map<nat, nat>)
    requires Assigns(env, names, l) && |inputMapping| == |names| && Reverses(reverse, inputMapping)
    requires forall m :: 0 <= m < |names| ==> inputMapping[m] == InputPlace(m, off)
    ensures FeedsRow(env, names, reverse, Rank(|names|, off), Position(l, |names|, off))
  {
    forall v: nat | v < Rank(|names|, off)
      ensures v in reverse && reverse[v] < |names| && env(names[reverse[v]]) == Bit(Position(l, |names|, off), v)
    {
      var m := PlaceHasVariable(|names|, off, v);
      assert inputMapping[m] == Some(v);
      PositionBits(l, |names|, off, m);
    }
  }

  // ---- The targets ----

  /** A target names an input or a new output that exists. */
  lemma {:induction false} ResolvedExists(table: TruthTable, inputs: nat, outputs: nat, order: seq<nat>,
                                          alias: map<nat, nat>, n: nat)
    requires |table| == Pow2(inputs) && AliasesDown(alias) && Permutes(order, outputs) && n < outputs
    ensures var trivial := TrivialTargets(table, inputs, outputs); var chosen := Selected(order, trivial.Keys + alias.Keys);
      var target := Resolved(trivial, alias, chosen, n);
      && (target.Copied? ==> target.m < inputs)
      && (target.Computed? ==> target.o < |chosen|)
    decreases n
  {
    var trivial := TrivialTargets(table, inputs, outputs);
    if n in trivial {
      FirstCopyIsExact(MaskColumn(table, n), 0, inputs);
    } else if n in alias {
      ResolvedExists(table, inputs, outputs, order, alias, alias[n]);
    } else {
      assert Has(order, n);
    }
  }

  /** The stored network and its outputs as the logic map uses them. */
  ghost predicate Stored(gateFrom: seq<seq<Source>>, outFrom: seq<Source>, form: NormalForm) {
    && InputsInRange(gateFrom, form.numInputs)
    && Delivers(gateFrom, outFrom, form.numInputs, NewColumns(form.modified, form.numOutputs))
  }

  /** What feeds an output, evaluated. */
  ghost predicate Carries(logic: LogicMap, gates: nat, env: string -> bool, name: string, value: bool) {
    && Wired(logic, gates) && Out(name) in logic
    && (logic[Out(name)].GateWire? ==> logic[Out(name)].gate < gates)
    && PinSignal(logic, gates, env, gates, logic[Out(name)]) == value
  }

  /** An output that needs gates. */
  lemma ComputedCarries(logic: LogicMap, gateFrom: seq<seq<Source>>, outFrom: seq<Source>, form: NormalForm,
                        names: seq<string>,
                        reverse: map<nat, nat>, env: string -> bool, p: nat, name: string, o: nat)
    requires Stored(gateFrom, outFrom, form) && PinsBuilt(logic, gateFrom, names, reverse)
    requires o < form.numOutputs && p < |form.modified| && |form.modified| == Pow2(form.numInputs)
    requires FeedsRow(env, names, reverse, form.numInputs, p)
    requires OutputBuilt(logic, name, Computed(o), names, outFrom, true)
    ensures Carries(logic, |gateFrom|, env, name, o in form.modified[p])
  {
    var inputs, columns := form.numInputs, NewColumns(form.modified, form.numOutputs);
    PinsAreWired(logic, gateFrom, names, reverse, inputs);
    assert OutputDrives(WiredNet(gateFrom, inputs), inputs, outFrom[o], columns[o]);
    SignalIsValue(logic, gateFrom, names, reverse, inputs, env, p, outFrom[o].n);
    assert GateColumn(WiredNet(gateFrom, inputs), inputs, outFrom[o].n)[p] == columns[o][p];
  }

  /** A network was found, or there are no gates. */
  ghost predicate Supplied(gateFrom: seq<seq<Source>>, outFrom: seq<Source>, form: NormalForm, found: bool) {
    if found then Stored(gateFrom, outFrom, form) else gateFrom == []
  }

  /** Only an output that needs gates is left out, and only without a network. */
  lemma TargetCarries(logic: LogicMap, gateFrom: seq<seq<Source>>, outFrom: seq<Source>, found: bool, form: NormalForm,
                      names: seq<string>, reverse: map<nat, nat>, env: string -> bool, l: nat, p: nat, name: string, target: Target)
    requires Supplied(gateFrom, outFrom, form, found) && PinsBuilt(logic, gateFrom, names, reverse)
      && Assigns(env, names, l)
    requires p < |form.modified| && |form.modified| == Pow2(form.numInputs)
      && FeedsRow(env, names, reverse, form.numInputs, p)
    requires target.Copied? ==> target.m < |names|
    requires target.Computed? ==> target.o < form.numOutputs
    requires OutputBuilt(logic, name, target, names, outFrom, found)
    ensures Out(name) in logic <==> found || !target.Computed?
    ensures Out(name) in logic ==>
      (logic[Out(name)].GateWire? <==> target.Computed?)
      && Carries(logic, |gateFrom|, env, name, TargetValue(target, l, form.modified[p]))
  {
    match target
    case Fixed(value) =>
      TrivialCarries(logic, gateFrom, outFrom, found, form, names, reverse);
    case Copied(m) =>
      TrivialCarries(logic, gateFrom, outFrom, found, form, names, reverse);
    case Computed(o) =>
      if found {
        ComputedCarries(logic, gateFrom, outFrom, form, names, reverse, env, p, name, o);
      }
  }

  lemma TrivialCarries(logic: LogicMap, gateFrom: seq<seq<Source>>, outFrom: seq<Source>, found: bool, form: NormalForm,
                       names: seq<string>, reverse: map<nat, nat>)
    requires Supplied(gateFrom, outFrom, form, found) && PinsBuilt(logic, gateFrom, names, reverse)
    ensures Wired(logic, |gateFrom|)
  {
    if found {
      PinsAreWired(logic, gateFrom, names, reverse, form.numInputs);
    }
  }

  /** The table and its normal form, as Parse, Evaluate and Analyze leave them. */
  ghost predicate Prepared(operations: seq<seq<Code>>, names: seq<string>, table: TruthTable,
                           order: seq<nat>, alias: map<nat, nat>, form: NormalForm)
  {
    && IsTruthTable(table, operations, |operations|, |names|)
    && IsNormalForm(table, |names|, |operations|, order, alias, form)
  }

  /** The value of a target is the value of the postfix list in the row. */
  lemma TargetIsValue(operations: seq<seq<Code>>, names: seq<string>, table: TruthTable, order: seq<nat>,
                      alias: map<nat, nat>,
                      form: NormalForm, n: nat, l: nat)
    requires Prepared(operations, names, table, order, alias, form) && n < |operations| && l < |table|
    requires !Gap(|names|, form.off)
    ensures var p := Position(l, |names|, form.off);
      p < |form.modified| && TargetValue(form.mapping[n], l, form.modified[p]) == Evaluated(operations[n], l)
    ensures |form.modified| == Pow2(form.numInputs)
  {
    AnalyzeKeepsMeaning(table, |names|, |operations|, order, alias, form.off);
    assert FoundAgain(table, |names|, Analyzed(table, |names|, |operations|, order, alias), n, l);
    RowAtPosition(l, |names|, form.off);
    assert (n in table[l]) == Evaluated(operations[n], l);
  }

  lemma TargetExists(operations: seq<seq<Code>>, names: seq<string>, table: TruthTable, order: seq<nat>,
                     alias: map<nat, nat>,
                     form: NormalForm, n: nat)
    requires Prepared(operations, names, table, order, alias, form) && n < |operations|
    ensures form.mapping[n].Copied? ==> form.mapping[n].m < |names|
    ensures form.mapping[n].Computed? ==> form.mapping[n].o < form.numOutputs
  {
    ResolvedExists(table, |names|, |operations|, order, alias, n);
  }

  /** The column of output `n` is the table of its formula. */
  lemma ColumnIsTable(e: Expr, operations: seq<seq<Code>>, names: seq<string>, table: TruthTable, n: nat)
    requires IsTruthTable(table, operations, |operations|, |names|) && n < |operations|
    requires Shaped(e) && AllKnown(operations[n], |names|) && Named(operations[n], names) == Postfix(e)
    requires IsPostfix(operations[n], 0) && Highest(operations[n], 0) <= WORD_SIZE
    ensures TableOf(MaskColumn(table, n), e, names)
  {
    forall env: string -> bool, l: nat | l < |table| && Assigns(env, names, l)
      ensures Meaning(e, env) == MaskColumn(table, n)[l]
    {
      EvaluatesFormula(e, operations[n], names, env, l);
    }
  }

  /** Where the compressed table has a single row, an output has a single value. */
  lemma SingleRow(operations: seq<seq<Code>>, names: seq<string>, table: TruthTable, order: seq<nat>,
                  alias: map<nat, nat>, form: NormalForm, n: nat, l: nat)
    requires Prepared(operations, names, table, order, alias, form) && n < |operations| && l < |table|
    requires !Gap(|names|, form.off) && form.mapping[n].Computed? && |form.modified| == 1
    ensures Evaluated(operations[n], l) == (form.mapping[n].o in form.modified[0])
  {
    TargetIsValue(operations, names, table, order, alias, form, n, l);
    OneRow(form.mapping[n], l, form.modified, Position(l, |names|, form.off));
  }

  lemma OneRow(target: Target, l: nat, modified: TruthTable, p: nat)
    requires target.Computed? && p < |modified| == 1
    ensures TargetValue(target, l, modified[p]) == (target.o in modified[0])
  {
  }

  /** Where an output needs gates, the compressed table has inputs and outputs. */
  lemma ComputedHasInputs(operations: seq<seq<Code>>, names: seq<string>, table: TruthTable, order: seq<nat>,
                          alias: map<nat, nat>, form: NormalForm, n: nat)
    requires Prepared(operations, names, table, order, alias, form) && n < |operations|
    requires !Gap(|names|, form.off)
    ensures form.mapping[n].Computed? <==> Proper(MaskColumn(table, n), |names|)
    ensures form.mapping[n].Computed? ==> form.numInputs > 0 && form.numOutputs > 0
  {
    var c := MaskColumn(table, n);
    ComputedIffProper(table, |names|, |operations|, order, alias, form.off, n);
    TargetExists(operations, names, table, order, alias, form, n);
    FormFits(operations, names, table, order, alias, form);
    if form.mapping[n].Computed? && form.numInputs == 0 {
      forall i, j | 0 <= i < |c| && 0 <= j < |c|
        ensures c[i] == c[j]
      {
        SingleRow(operations, names, table, order, alias, form, n, i);
        SingleRow(operations, names, table, order, alias, form, n, j);
        assert c[i] == Evaluated(operations[n], i) && c[j] == Evaluated(operations[n], j);
      }
      assert Networks.Constant(c);
      assert false;
    }
  }

  /** What the logic map says about an output: it is left out exactly if its formula needs gates
      and no network is stored; otherwise what feeds it has the value of the formula for every
      assignment of the variables, and it is a gate only if the formula needs gates. */
  ghost predicate OutputAnswered(logic: LogicMap, gates: nat, name: string, e: Expr, stored: bool) {
    && (Out(name) in logic <==> stored || !NeedsGates(e))
    && (Out(name) in logic ==>
      (logic[Out(name)].GateWire? <==> NeedsGates(e))
      && forall env: string -> bool :: Carries(logic, gates, env, name, Meaning(e, env)))
  }

  /** Whether or not a network is stored for the key, the logic map is right about output `n`. */
  lemma LogicMapIsCorrect(e: Expr, operations: seq<seq<Code>>, names: seq<string>, table: TruthTable,
                          order: seq<nat>, alias: map<nat, nat>, form: NormalForm,
                          gateFrom: seq<seq<Source>>, outFrom: seq<Source>, found: bool, stored: bool, reverse: map<nat, nat>,
                          logic: LogicMap, outputNames: seq<string>, n: nat)
    requires Prepared(operations, names, table, order, alias, form) && n < |operations| == |outputNames|
    requires !Gap(|names|, form.off) && Distinct(names)
    requires Shaped(e) && AllKnown(operations[n], |names|) && Named(operations[n], names) == Postfix(e)
    requires IsPostfix(operations[n], 0) && Highest(operations[n], 0) <= WORD_SIZE
    requires found <==> form.numInputs > 0 && form.numOutputs > 0 && stored
    requires Supplied(gateFrom, outFrom, form, found) && Reverses(reverse, form.inputMapping)
    requires PinsBuilt(logic, gateFrom, names, reverse)
    requires OutputsBuilt(logic, outputNames, form.mapping, |operations|, names, outFrom, found)
    ensures OutputAnswered(logic, |gateFrom|, outputNames[n], e, stored)
  {
    ColumnIsTable(e, operations, names, table, n);
    ProperNeedsGates(MaskColumn(table, n), e, names);
    ComputedHasInputs(operations, names, table, order, alias, form, n);
    OutputCarries(e, operations, names, table, order, alias, form, gateFrom, outFrom, found, reverse, logic,
                  outputNames, RowEnv(names, 0, false), n);
    forall env: string -> bool | Out(outputNames[n]) in logic
      ensures Carries(logic, |gateFrom|, env, outputNames[n], Meaning(e, env))
    {
      OutputCarries(e, operations, names, table, order, alias, form, gateFrom, outFrom, found, reverse, logic,
                    outputNames, env, n);
    }
  }

  lemma OutputCarries(e: Expr, operations: seq<seq<Code>>, names: seq<string>, table: TruthTable,
                      order: seq<nat>, alias: map<nat, nat>, form: NormalForm,
                      gateFrom: seq<seq<Source>>, outFrom: seq<Source>, found: bool, reverse: map<nat, nat>,
                      logic: LogicMap, outputNames: seq<string>, env: string -> bool, n: nat)
    requires Prepared(operations, names, table, order, alias, form) && n < |operations| == |outputNames|
    requires !Gap(|names|, form.off)
    requires Shaped(e) && AllKnown(operations[n], |names|) && Named(operations[n], names) == Postfix(e)
    requires IsPostfix(operations[n], 0) && Highest(operations[n], 0) <= WORD_SIZE
    requires Supplied(gateFrom, outFrom, form, found) && Reverses(reverse, form.inputMapping)
    requires PinsBuilt(logic, gateFrom, names, reverse)
    requires OutputsBuilt(logic, outputNames, form.mapping, |operations|, names, outFrom, found)
    ensures Out(outputNames[n]) in logic <==> found || !form.mapping[n].Computed?
    ensures Out(outputNames[n]) in logic ==>
      (logic[Out(outputNames[n])].GateWire? <==> form.mapping[n].Computed?)
      && Carries(logic, |gateFrom|, env, outputNames[n], Meaning(e, env))
  {
    var l := RowOf(env, names, |names|);
    RowAssigns(env, names);
    EvaluatesFormula(e, operations[n], names, env, l);
    TargetIsValue(operations, names, table, order, alias, form, n, l);
    TargetExists(operations, names, table, order, alias, form, n);
    CompressedRowIsFed(env, names, l, form.off, form.inputMapping, reverse);
    TargetCarries(logic, gateFrom, outFrom, found, form, names, reverse, env, l, Position(l, |names|, form.off),
                  outputNames[n], form.mapping[n]);
  }

  // ---- The whole query ----

  /** The formula of a phrase, whose evaluation fits the 64 bits of the stack. */
  ghost predicate FormulaOf(phrase: Phrase, e: Expr) {
    Shaped(e) && Tokens(e) == phrase.tokens && (FormulasArePostfix(e); Highest(Postfix(e), 0) <= WORD_SIZE)
  }

  ghost predicate Answerable(phrase: Phrase) {
    exists e :: FormulaOf(phrase, e)
  }

  lemma {:induction false} NamedIsAsHigh(codes: seq<Code>, names: seq<string>, height: nat)
    requires AllKnown(codes, |names|) && IsPostfix(Named(codes, names), height)
    ensures IsPostfix(codes, height) && Highest(codes, height) == Highest(Named(codes, names), height)
    decreases |codes|
  {
    if codes != [] {
      assert Named(codes, names)[1..] == Named(codes[1..], names);
      NamedIsAsHigh(codes[1..], names,
                    if !codes[0].Apply? then height + 1 else if codes[0].op == NOT then height else height - 1);
    }
  }

  lemma AnswerableSteps(phrase: Phrase)
    requires Answerable(phrase)
    ensures Steps(Yard([], []), phrase.tokens)
  {
    var e :| FormulaOf(phrase, e);
    ParsesFormula(e);
  }

  /** The lists that Parse leaves are those of the formulas. */
  lemma FormulaIsListed(phrase: Phrase, name: string, codes: seq<Code>, names: seq<string>, e: Expr)
    requires PhraseParsed(phrase, name, codes, names) && FormulaOf(phrase, e)
    ensures Named(codes, names) == Postfix(e) && IsPostfix(codes, 0) && Highest(codes, 0) <= WORD_SIZE
  {
    ParsesFormula(e);
    FormulasArePostfix(e);
    NamedIsAsHigh(codes, names, 0);
  }

  ghost predicate AllAnswered(phrases: seq<Phrase>, logic: LogicMap, gates: nat, stored: bool) {
    forall k, e :: 0 <= k < |phrases| && FormulaOf(phrases[k], e) ==>
      OutputAnswered(logic, gates, phrases[k].name, e, stored)
  }

  /** The map has no entries but two for each gate and one for an output of the query. */
  ghost predicate OnlyAbout(phrases: seq<Phrase>, logic: LogicMap, gates: nat) {
    forall t :: t in logic ==> match t
      case Pin(g, index) => g < gates && 1 <= index <= 2
      case Out(name) => NamesOutput(phrases, name)
  }

  ghost predicate NamesOutput(phrases: seq<Phrase>, name: string) {
    exists k :: 0 <= k < |phrases| && phrases[k].name == name
  }

  lemma QueryIsAnswered(phrases: seq<Phrase>, operations: seq<seq<Code>>, outputNames: seq<string>, names: seq<string>,
                        table: TruthTable, order: seq<nat>, alias: map<nat, nat>, form: NormalForm,
                        gateFrom: seq<seq<Source>>, outFrom: seq<Source>, found: bool, stored: bool, reverse: map<nat, nat>,
                        logic: LogicMap)
    requires AllParsed(phrases, outputNames, operations, names)
      && Prepared(operations, names, table, order, alias, form)
    requires !Gap(|names|, form.off) && Distinct(names)
    requires found <==> form.numInputs > 0 && form.numOutputs > 0 && stored
    requires Supplied(gateFrom, outFrom, form, found) && Reverses(reverse, form.inputMapping)
    requires PinsBuilt(logic, gateFrom, names, reverse)
    requires OutputsBuilt(logic, outputNames, form.mapping, |operations|, names, outFrom, found)
    ensures AllAnswered(phrases, logic, |gateFrom|, stored)
  {
    forall k, e | 0 <= k < |phrases| && FormulaOf(phrases[k], e)
      ensures OutputAnswered(logic, |gateFrom|, phrases[k].name, e, stored)
    {
      assert PhraseParsed(phrases[k], outputNames[k], operations[k], names);
      FormulaIsListed(phrases[k], outputNames[k], operations[k], names, e);
      LogicMapIsCorrect(e, operations, names, table, order, alias, form, gateFrom, outFrom, found, stored, reverse,
                        logic, outputNames, k);
    }
  }

  lemma NothingElseIsAbout(phrases: seq<Phrase>, operations: seq<seq<Code>>, outputNames: seq<string>,
                           names: seq<string>, gateFrom: seq<seq<Source>>, logic: LogicMap)
    requires AllParsed(phrases, outputNames, operations, names) && NothingElse(logic, gateFrom, outputNames)
    requires Pairs(gateFrom)
    ensures OnlyAbout(phrases, logic, |gateFrom|)
  {
    forall t | t in logic
      ensures match t
        case Pin(g, index) => g < |gateFrom| && 1 <= index <= 2
        case Out(name) => NamesOutput(phrases, name)
    {
      assert Belongs(t, gateFrom, outputNames);
      if t.Out? {
        var k: nat :| k < |outputNames| && outputNames[k] == t.name;
        assert PhraseParsed(phrases[k], outputNames[k], operations[k], names);
      }
    }
  }

  ghost predicate NamesDiffer(phrases: seq<Phrase>) {
    forall i, j :: 0 <= i < j < |phrases| ==> phrases[i].name != phrases[j].name
  }

  lemma {:induction false} SelectedIsShort(order: seq<nat>, skip: set<nat>)
    ensures |Selected(order, skip)| <= |order|
    decreases |order|
  {
    if order != [] {
      SelectedIsShort(order[..|order| - 1], skip);
    }
  }

  lemma {:induction false} RankIsSmall(m: nat, off: set<nat>)
    ensures Rank(m, off) <= m
  {
    if m > 0 {
      RankIsSmall(m - 1, off);
    }
  }

  /** The sizes that LookUp and Solve rely on. */
  lemma FormFits(operations: seq<seq<Code>>, names: seq<string>, table: TruthTable, order: seq<nat>,
                 alias: map<nat, nat>, form: NormalForm)
    requires Prepared(operations, names, table, order, alias, form)
    ensures form.numInputs <= |names| && form.numOutputs <= |operations|
    ensures |form.modified| == Pow2(form.numInputs) && PlacesDiffer(form.inputMapping)
  {
    RankIsSmall(|names|, form.off);
    SelectedIsShort(order, TrivialTargets(table, |names|, |operations|).Keys + alias.Keys);
    RowAtPosition(0, |names|, form.off);
    PlacesAreDistinct(form.inputMapping, form.off);
  }

  /** The state of the parser once the table has been analyzed. */
  ghost predicate Ready(parser: Parser, phrases: seq<Phrase>, order: seq<nat>, alias: map<nat, nat>, form: NormalForm)
    reads parser
  {
    && AllParsed(phrases, parser.outputNames, parser.operations, parser.varNames)
    && Prepared(parser.operations, parser.varNames, parser.truthTable, order, alias, form)
    && form == parser.Form(form.off) && Distinct(parser.varNames)
  }

  method ParseQuery(phrases: seq<Phrase>) returns (parser: Parser)
    requires forall k :: 0 <= k < |phrases| ==> Answerable(phrases[k])
    ensures fresh(parser) && parser.Valid() && parser.varNames == NamesIn([], phrases)
    ensures AllParsed(phrases, parser.outputNames, parser.operations, parser.varNames) && Distinct(parser.varNames)
  {
    forall k | 0 <= k < |phrases|
      ensures Steps(Yard([], []), phrases[k].tokens)
    {
      AnswerableSteps(phrases[k]);
    }
    parser := new Parser();
    parser.Parse(phrases);
    NumberingIsDistinct(parser.variables, parser.varNames);
  }

  method Normalize(parser: Parser) returns (ghost order: seq<nat>, ghost alias: map<nat, nat>, ghost form: NormalForm)
    requires parser.Valid()
    modifies parser
    ensures parser.operations == old(parser.operations) && parser.varNames == old(parser.varNames)
    ensures parser.outputNames == old(parser.outputNames) && form == parser.Form(form.off)
    ensures Prepared(parser.operations, parser.varNames, parser.truthTable, order, alias, form)
  {
    parser.Evaluate();
    ghost var table, names, operations := parser.truthTable, parser.varNames, parser.operations;
    ghost var off;
    off, order, alias := parser.Analyze();
    form := parser.Form(off);
    assert Prepared(operations, names, table, order, alias, form);
  }

  /** Parse, Evaluate and Analyze. */
  method Prepare(phrases: seq<Phrase>)
    returns (parser: Parser, ghost order: seq<nat>, ghost alias: map<nat, nat>, ghost form: NormalForm)
    requires forall k :: 0 <= k < |phrases| ==> Answerable(phrases[k])
    ensures fresh(parser) && Ready(parser, phrases, order, alias, form) && parser.varNames == NamesIn([], phrases)
  {
    parser := ParseQuery(phrases);
    order, alias, form := Normalize(parser);
  }

  /** The whole query, for a sound database: if the discarded variables leave no gap, the logic
      map has the value of its formula for every output, for every assignment of the variables;
      exactly the outputs that need gates are missing if no network is stored. The gates are
      those of the row found. Up to 6 variables there is no gap. */
  method Answer(phrases: seq<Phrase>, database: map<string, Row>) returns (parser: Parser, ghost off: set<nat>)
    requires SoundDatabase(database) && NamesDiffer(phrases) && |phrases| < 32 && |NamesIn([], phrases)| < 32
    requires forall k :: 0 <= k < |phrases| ==> Answerable(phrases[k])
    ensures parser.varNames == NamesIn([], phrases) && |parser.inputMapping| == |parser.varNames|
    ensures forall m :: 0 <= m < |parser.varNames| ==> parser.inputMapping[m] == InputPlace(m, off)
    ensures |parser.varNames| <= 6 ==> !Gap(|parser.varNames|, off)
    ensures parser.numGates == RowGates(database, parser.key, parser.numInputs, parser.numOutputs)
    ensures OnlyAbout(phrases, parser.logicMap, parser.numGates)
    ensures !Gap(|parser.varNames|, off) ==>
      AllAnswered(phrases, parser.logicMap, parser.numGates, parser.key in database)
  {
    ghost var order, alias, form;
    parser, order, alias, form := Prepare(phrases);
    off := form.off;
    SolvePrepared(parser, phrases, database, order, alias, form);
  }

  /** The number of gates in the row found; there is nothing to look for without inputs or outputs. */
  function RowGates(database: map<string, Row>, key: string, inputs: nat, outputs: nat): nat {
    if inputs > 0 && outputs > 0 && key in database then database[key].gates else 0
  }

  method SolvePrepared(parser: Parser, phrases: seq<Phrase>, database: map<string, Row>,
                       ghost order: seq<nat>, ghost alias: map<nat, nat>, ghost form: NormalForm)
    requires Ready(parser, phrases, order, alias, form) && |parser.varNames| < 32
    requires SoundDatabase(database) && NamesDiffer(phrases) && |phrases| < 32
    modifies parser
    ensures parser.varNames == old(parser.varNames) && parser.inputMapping == form.inputMapping
    ensures parser.numGates == RowGates(database, parser.key, parser.numInputs, parser.numOutputs)
    ensures OnlyAbout(phrases, parser.logicMap, parser.numGates)
    ensures !Gap(|parser.varNames|, form.off) ==>
      AllAnswered(phrases, parser.logicMap, parser.numGates, parser.key in database)
  {
    ghost var outputNames, operations, names, table := parser.outputNames, parser.operations, parser.varNames, parser.truthTable;
    FormFits(operations, names, table, order, alias, form);
    OutputNamesDiffer(phrases, outputNames, operations, names);
    ghost var gateFrom, outFrom, reverse := parser.Solve(database);
    assert Supplied(gateFrom, outFrom, form, parser.numGates > 0);
    NothingElseIsAbout(phrases, operations, outputNames, names, gateFrom, parser.logicMap);
    if !Gap(|names|, form.off) {
      QueryIsAnswered(phrases, operations, outputNames, names, table, order, alias, form, gateFrom, outFrom,
                      parser.numGates > 0, parser.key in database, reverse, parser.logicMap);
    }
  }

  lemma OutputNamesDiffer(phrases: seq<Phrase>, outputNames: seq<string>, operations: seq<seq<Code>>,
                          names: seq<string>)
    requires AllParsed(phrases, outputNames, operations, names) && NamesDiffer(phrases)
    ensures Distinct(outputNames)
  {
    assert forall k :: 0 <= k < |phrases| ==> PhraseParsed(phrases[k], outputNames[k], operations[k], names);
  }
}
