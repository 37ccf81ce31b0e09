/** Pruning loses no optimum: every minimum network for a set of functions has a renumbering
    that the generator writes and that passes the catalogue's all-gates-used filter. */
module Optimum {
  import opened Bits
  import opened Networks
  import opened Reductions
  import opened Renumbering
  import opened Odometer
  import opened GateBuilder

  // ---- Every input is read ----

  /** Without a gate on input `m`, switching that input changes no other source. */
  lemma {:induction false} UnreadInput(net: Net, inputs: nat, m: nat, row: nat, src: nat)
    requires Topological(net, inputs) && m < inputs && src < inputs + |net| && src != m
    requires forall g :: 0 <= g < |net| ==> net[g].a != m && net[g].b != m
    requires !Bit(row, m)
    ensures Value(net, inputs, row + Pow2(m), src) == Value(net, inputs, row, src)
    decreases src
  {
    if src < inputs {
      SetClearBit(row, m, src);
    } else {
      UnreadInput(net, inputs, m, row, net[src - inputs].a);
      UnreadInput(net, inputs, m, row, net[src - inputs].b);
    }
  }

  lemma DifferingRow(net: Net, inputs: nat, g: nat, c: Column, m: nat) returns (row: nat)
    requires Topological(net, inputs) && g < |net| && Drives(net, inputs, g, c) && DependsOn(c, m)
    ensures row + Pow2(m) < Pow2(inputs) && !Bit(row, m)
    ensures Value(net, inputs, row, inputs + g) != Value(net, inputs, row + Pow2(m), inputs + g)
  {
    row :| row + Pow2(m) < |c| && !Bit(row, m) && c[row] != c[row + Pow2(m)];
  }

  lemma DependenceIsRead(net: Net, inputs: nat, wanted: set<Column>, m: nat)
    requires Topological(net, inputs) && Computes(net, inputs, wanted) && m < inputs
    requires SomeDependsOn(wanted, m)
    ensures m in Flatten(net)
  {
    hide Value;
    var c :| c in wanted && DependsOn(c, m);
    var g :| 0 <= g < |net| && Drives(net, inputs, g, c);
    var row := DifferingRow(net, inputs, g, c, m);
    hide *;
    if forall h :: 0 <= h < |net| ==> net[h].a != m && net[h].b != m {
      UnreadInput(net, inputs, m, row, inputs + g);
      assert false;
    } else {
      var h :| 0 <= h < |net| && (net[h].a == m || net[h].b == m);
      FlattenHolds(net, h);
    }
  }

  lemma FlattenHolds(net: Net, h: nat)
    requires h < |net|
    ensures net[h].a in Flatten(net) && net[h].b in Flatten(net)
  {
    var s := Flatten(net);
    assert s[2 * h] == net[h].a && s[2 * h + 1] == net[h].b;
  }

  // ---- A minimum network in canonical order is acceptable ----

  ghost predicate SomeDependsOn(wanted: set<Column>, m: nat) {
    exists c :: c in wanted && DependsOn(c, m)
  }

  ghost predicate JointlyDepends(wanted: set<Column>, inputs: nat) {
    forall m: nat :: m < inputs ==> SomeDependsOn(wanted, m)
  }

  /** The functions the catalogue is about. */
  ghost predicate Cataloguable(wanted: set<Column>, inputs: nat) {
    JointlyDepends(wanted, inputs) && forall c :: c in wanted ==> Proper(c, inputs)
  }

  /** Each gate feeds another gate or is one of the wanted outputs. */
  ghost predicate AllGatesUsed(net: Net, inputs: nat, wanted: set<Column>)
    requires Topological(net, inputs)
  {
    forall g: nat :: g < |net| ==> Referenced(net, inputs, g) || GateColumn(net, inputs, g) in wanted
  }

  lemma SamePairSameColumn(net: Net, inputs: nat, m: nat, n: nat)
    requires Topological(net, inputs) && m < n < |net| && net[m] == net[n]
    ensures RepeatsEarlier(net, inputs, n, inputs + m)
  {
    assert net[m].a < inputs + m && net[m].b < inputs + m;
    forall row: nat | row < Pow2(inputs)
      ensures GateColumn(net, inputs, n)[row] == ColumnOf(net, inputs, inputs + m)[row]
    {
    }
  }

  lemma NotNotSameColumn(net: Net, inputs: nat, n: nat)
    requires Topological(net, inputs) && n < |net| && NotNot(net, inputs, n)
    ensures var m := net[n].a - inputs; net[m].a < inputs + n && RepeatsEarlier(net, inputs, n, net[m].a)
  {
    assert net[n].a < inputs + n;
    var m := net[n].a - inputs;
    assert net[m].a < inputs + m;
    forall row: nat | row < Pow2(inputs)
      ensures GateColumn(net, inputs, n)[row] == ColumnOf(net, inputs, net[m].a)[row]
    {
      assert Value(net, inputs, row, inputs + n) == !Value(net, inputs, row, inputs + m);
      assert Value(net, inputs, row, inputs + m) == !Value(net, inputs, row, net[m].a);
    }
  }

  lemma CopyRepeats(net: Net, inputs: nat, g: nat, m: nat)
    requires Topological(net, inputs) && g < |net| && m < inputs && CopyOf(GateColumn(net, inputs, g), m)
    ensures RepeatsEarlier(net, inputs, g, m)
  {
    assert GateColumn(net, inputs, g) == ColumnOf(net, inputs, m);
  }

  lemma CanonicalMinimumIsAcceptable(net: Net, inputs: nat, wanted: set<Column>)
    requires Minimum(net, inputs, wanted) && Cataloguable(wanted, inputs) && Canonical(net, inputs)
    ensures Acceptable(Flatten(net), inputs, |net|)
    ensures AllGatesUsed(net, inputs, wanted)
  {
    MinimumIsIrredundant(net, inputs, wanted);
    NetOfFlatten(net);
    RangeIsTopological(Flatten(net), inputs);
    forall i: nat | i < inputs
      ensures InputRead(Flatten(net), i)
    {
      DependenceIsRead(net, inputs, wanted, i);
    }
    IrredundantPairs(net, inputs, wanted);
    forall g: nat | g < |net|
      ensures !NotNot(net, inputs, g) && !Trivial(net, inputs, g)
    {
      IrredundantGate(net, inputs, wanted, g);
    }
  }

  lemma IrredundantPairs(net: Net, inputs: nat, wanted: set<Column>)
    requires Topological(net, inputs) && Irredundant(net, inputs, wanted)
    ensures DistinctPairs(net)
  {
    forall m, n | 0 <= m < n < |net|
      ensures net[m] != net[n]
    {
      if net[m] == net[n] {
        SamePairSameColumn(net, inputs, m, n);
      }
    }
  }

  lemma IrredundantGate(net: Net, inputs: nat, wanted: set<Column>, g: nat)
    requires Topological(net, inputs) && Irredundant(net, inputs, wanted) && g < |net|
    ensures !NotNot(net, inputs, g) && !Trivial(net, inputs, g)
  {
    if NotNot(net, inputs, g) {
      NotNotSameColumn(net, inputs, g);
    }
    if m :| 0 <= m < inputs && CopyOf(GateColumn(net, inputs, g), m) {
      CopyRepeats(net, inputs, g, m);
    }
  }

  // ---- The theorem ----

  lemma RenumberedMinimum(net: Net, other: Net, inputs: nat, p: seq<nat>, wanted: set<Column>)
    requires Minimum(net, inputs, wanted) && Renumbered(net, other, inputs, p)
    ensures Minimum(other, inputs, wanted)
  {
    forall c | c in wanted
      ensures exists h :: 0 <= h < |other| && Drives(other, inputs, h, c)
    {
      var g :| 0 <= g < |net| && Drives(net, inputs, g, c);
      RenumberedColumn(net, other, inputs, p, g);
      assert Drives(other, inputs, p[g], c);
    }
  }

  /** No minimum network is lost: one of its renumberings is acceptable, so the generator
      writes it, and all its gates are used. */
  lemma PruningKeepsOptimum(net: Net, inputs: nat, wanted: set<Column>) returns (other: Net, p: seq<nat>)
    requires Minimum(net, inputs, wanted) && Cataloguable(wanted, inputs)
    ensures Renumbered(net, other, inputs, p) && Minimum(other, inputs, wanted)
    ensures Acceptable(Flatten(other), inputs, |net|) && AllGatesUsed(other, inputs, wanted)
  {
    other, p := CanonicalReachable(net, inputs);
    RenumberedMinimum(net, other, inputs, p, wanted);
    CanonicalMinimumIsAcceptable(other, inputs, wanted);
  }

  /** Running the generator for the minimum size writes a minimum network. */
  method GenerateOptimum(inputs: nat, gates: nat, maxInputs: nat, wordBits: nat, schedule: seq<Start>,
                         ghost net: Net, ghost wanted: set<Column>) returns (generator: Generator, ghost at: nat)
    requires 1 <= inputs <= maxInputs && gates >= 1 && inputs + gates <= wordBits
    requires Covers(schedule, inputs)
    requires Minimum(net, inputs, wanted) && Cataloguable(wanted, inputs) && |net| == gates
    ensures at < |generator.records| && FaithfulRecord(generator.records[at], inputs, gates)
    ensures Minimum(NetOf(generator.records[at].gateInputs), inputs, wanted)
    ensures AllGatesUsed(NetOf(generator.records[at].gateInputs), inputs, wanted)
  {
    generator := new Generator(inputs, gates, maxInputs, wordBits);
    generator.CreateNandCombinations(schedule);
    ghost var other, p := PruningKeepsOptimum(net, inputs, wanted);
    NetOfFlatten(other);
    assert Flatten(other) in GateSequences(generator.records);
    at :| 0 <= at < |generator.records| && GateSequences(generator.records)[at] == Flatten(other);
  }
}
