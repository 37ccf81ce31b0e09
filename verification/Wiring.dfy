/** The logic map of Solve in backend/parser.php: which variable, constant or gate feeds each
    gate input and each output, and the value that evaluating it gives. */
module Wiring {
  import opened Bits
  import opened Networks
  import opened Analysis
  import opened Solver
  import opened Wrappers

  /** "g3.in1", or the name of an output */
  datatype Terminal = Pin(gate: nat, index: nat) | Out(name: string)

  /** "0" or "1", the name of a variable, or "g3.out" */
  datatype Wire = ConstantWire(value: bool) | VariableWire(name: string) | GateWire(gate: nat)

  type LogicMap = map<Terminal, Wire>

  // ---- Evaluating a logic map ----

  ghost predicate PinFits(logic: LogicMap, g: nat, index: nat) {
    Pin(g, index) in logic && (logic[Pin(g, index)].GateWire? ==> logic[Pin(g, index)].gate < g)
  }

  /** Both inputs of the first `gates` gates are fed by variables or earlier gates. */
  ghost predicate Wired(logic: LogicMap, gates: nat) {
    forall g: nat :: g < gates ==> PinFits(logic, g, 1) && PinFits(logic, g, 2)
  }

  ghost function GateSignal(logic: LogicMap, gates: nat, env: string -> bool, g: nat): bool
    requires Wired(logic, gates) && g < gates
    decreases g, 1
  {
    assert PinFits(logic, g, 1) && PinFits(logic, g, 2);
    !(PinSignal(logic, gates, env, g, logic[Pin(g, 1)]) && PinSignal(logic, gates, env, g, logic[Pin(g, 2)]))
  }

  ghost function PinSignal(logic: LogicMap, gates: nat, env: string -> bool, g: nat, wire: Wire): bool
    requires Wired(logic, gates) && g <= gates && (wire.GateWire? ==> wire.gate < g)
    decreases g, 0
  {
    match wire
    case ConstantWire(value) => value
    case VariableWire(name) => env(name)
    case GateWire(h) => GateSignal(logic, gates, env, h)
  }

  // ---- The map that Solve builds ----

  /** `$input_mapping_reverse` */
  ghost predicate Reverses(reverse: map<nat, nat>, inputMapping: seq<Option<nat>>) {
    && (forall v :: v in reverse ==> reverse[v] < |inputMapping| && inputMapping[reverse[v]] == Some(v))
    && forall m :: 0 <= m < |inputMapping| && inputMapping[m].Some? ==>
      inputMapping[m].value in reverse && reverse[inputMapping[m].value] == m
  }

  function SourceWire(source: Source, names: seq<string>, reverse: map<nat, nat>): Wire {
    match source
    case FromInput(n) => if n in reverse && reverse[n] < |names| then VariableWire(names[reverse[n]]) else ConstantWire(false)
    case FromGate(n) => GateWire(n)
  }

  /** What feeds an output; nothing if it needs gates and there are none. */
  function TargetWire(target: Target, names: seq<string>, outFrom: seq<Source>, found: bool): Option<Wire> {
    match target
    case Fixed(value) => Some(ConstantWire(value))
    case Copied(m) => if m < |names| then Some(VariableWire(names[m])) else None
    case Computed(o) => if found && o < |outFrom| then Some(GateWire(outFrom[o].n)) else None
  }

  ghost predicate PinsBuilt(logic: LogicMap, gateFrom: seq<seq<Source>>, names: seq<string>, reverse: map<nat, nat>) {
    forall g :: 0 <= g < |gateFrom| ==> PinsOf(logic, g, gateFrom[g], names, reverse)
  }

  ghost predicate PinsOf(logic: LogicMap, g: nat, sources: seq<Source>, names: seq<string>, reverse: map<nat, nat>) {
    forall i :: 0 <= i < |sources| ==> PinFed(logic, g, i, sources[i], names, reverse)
  }

  /** Source number `i` of a gate feeds its input "in" `i + 1`. */
  ghost predicate PinFed(logic: LogicMap, g: nat, i: nat, source: Source, names: seq<string>, reverse: map<nat, nat>) {
    Pin(g, i + 1) in logic && logic[Pin(g, i + 1)] == SourceWire(source, names, reverse)
  }

  ghost predicate WiredTo(logic: LogicMap, name: string, wire: Wire) {
    Out(name) in logic && logic[Out(name)] == wire
  }

  /** A constant, a variable, or a gate of the network that was found; without a network an
      output that needs gates is left out. */
  ghost predicate OutputBuilt(logic: LogicMap, name: string, target: Target, names: seq<string>, outFrom: seq<Source>,
                              found: bool)
  {
    match target
    case Fixed(value) => WiredTo(logic, name, ConstantWire(value))
    case Copied(m) => if m < |names| then WiredTo(logic, name, VariableWire(names[m])) else Out(name) !in logic
    case Computed(o) =>
      if found && o < |outFrom| then WiredTo(logic, name, GateWire(outFrom[o].n)) else Out(name) !in logic
  }

  /** The map only tells about the pins of these gates and about these outputs. */
  ghost predicate NothingElse(logic: LogicMap, gateFrom: seq<seq<Source>>, outputNames: seq<string>) {
    forall t :: t in logic ==> Belongs(t, gateFrom, outputNames)
  }

  ghost predicate Belongs(t: Terminal, gateFrom: seq<seq<Source>>, outputNames: seq<string>) {
    match t
    case Pin(g, index) => g < |gateFrom| && 1 <= index <= |gateFrom[g]|
    case Out(name) => name in outputNames
  }

  // ---- Its value ----

  /** In row `p` of the compressed table the kept variables have these values. */
  ghost predicate FeedsRow(env: string -> bool, names: seq<string>, reverse: map<nat, nat>, inputs: nat, p: nat) {
    forall v: nat :: v < inputs ==> v in reverse && reverse[v] < |names| && env(names[reverse[v]]) == Bit(p, v)
  }

  ghost predicate Pairs(gateFrom: seq<seq<Source>>) {
    forall g :: 0 <= g < |gateFrom| ==> |gateFrom[g]| == 2
  }

  lemma GatePins(logic: LogicMap, gateFrom: seq<seq<Source>>, names: seq<string>, reverse: map<nat, nat>, inputs: nat,
                 g: nat)
    requires PinsBuilt(logic, gateFrom, names, reverse) && Pairs(gateFrom) && g < |gateFrom|
    requires Topological(WiredNet(gateFrom, inputs), inputs)
    ensures PinFits(logic, g, 1) && PinFits(logic, g, 2)
    ensures logic[Pin(g, 1)] == SourceWire(gateFrom[g][0], names, reverse)
    ensures logic[Pin(g, 2)] == SourceWire(gateFrom[g][1], names, reverse)
  {
    assert PinsOf(logic, g, gateFrom[g], names, reverse);
    var a, b := gateFrom[g][0], gateFrom[g][1];
    assert PinFed(logic, g, 0, a, names, reverse) && PinFed(logic, g, 1, b, names, reverse);
    assert WiredNet(gateFrom, inputs)[g] == Gate(CodeOf(a, inputs), CodeOf(b, inputs));
  }

  lemma PinsAreWired(logic: LogicMap, gateFrom: seq<seq<Source>>, names: seq<string>, reverse: map<nat, nat>,
                     inputs: nat)
    requires PinsBuilt(logic, gateFrom, names, reverse) && Pairs(gateFrom)
    requires Topological(WiredNet(gateFrom, inputs), inputs)
    ensures Wired(logic, |gateFrom|)
  {
    forall g: nat | g < |gateFrom|
      ensures PinFits(logic, g, 1) && PinFits(logic, g, 2)
    {
      GatePins(logic, gateFrom, names, reverse, inputs, g);
    }
  }

  /** A source of the stored network, by the decoder's names. */
  lemma SourceSignal(logic: LogicMap, gateFrom: seq<seq<Source>>, names: seq<string>, reverse: map<nat, nat>,
                     inputs: nat,
                     env: string -> bool, p: nat, g: nat, source: Source)
    requires PinsBuilt(logic, gateFrom, names, reverse) && Pairs(gateFrom) && Wired(logic, |gateFrom|)
    requires Topological(WiredNet(gateFrom, inputs), inputs) && FeedsRow(env, names, reverse, inputs, p)
    requires g <= |gateFrom| && CodeOf(source, inputs) < inputs + g && (source.FromInput? ==> source.n < inputs)
    requires InputsInRange(gateFrom, inputs)
    ensures var wire := SourceWire(source, names, reverse);
      && (wire.GateWire? ==> wire.gate < g)
      && PinSignal(logic, |gateFrom|, env, g, wire) == Value(WiredNet(gateFrom, inputs), inputs, p, CodeOf(source, inputs))
    decreases g, 0
  {
    if source.FromGate? {
      SignalIsValue(logic, gateFrom, names, reverse, inputs, env, p, source.n);
    }
  }

  /** "i3" only stands for inputs that exist. */
  ghost predicate InputsInRange(gateFrom: seq<seq<Source>>, inputs: nat) {
    forall g, i :: 0 <= g < |gateFrom| && 0 <= i < |gateFrom[g]| && gateFrom[g][i].FromInput? ==> gateFrom[g][i].n < inputs
  }

  /** Every gate of the logic map has the value it has in the stored network. */
  lemma {:induction false} SignalIsValue(logic: LogicMap, gateFrom: seq<seq<Source>>, names: seq<string>,
                                         reverse: map<nat, nat>,
                                         inputs: nat, env: string -> bool, p: nat, g: nat)
    requires PinsBuilt(logic, gateFrom, names, reverse) && Pairs(gateFrom) && Wired(logic, |gateFrom|)
    requires Topological(WiredNet(gateFrom, inputs), inputs) && FeedsRow(env, names, reverse, inputs, p)
    requires g < |gateFrom| && InputsInRange(gateFrom, inputs)
    ensures GateSignal(logic, |gateFrom|, env, g) == Value(WiredNet(gateFrom, inputs), inputs, p, inputs + g)
    decreases g, 1
  {
    GatePins(logic, gateFrom, names, reverse, inputs, g);
    assert WiredNet(gateFrom, inputs)[g] == Gate(CodeOf(gateFrom[g][0], inputs), CodeOf(gateFrom[g][1], inputs));
    SourceSignal(logic, gateFrom, names, reverse, inputs, env, p, g, gateFrom[g][0]);
    SourceSignal(logic, gateFrom, names, reverse, inputs, env, p, g, gateFrom[g][1]);
  }
}
