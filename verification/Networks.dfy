/** NAND networks in evaluation order, as `gatebuilder` writes them: a source below the
    number of inputs is an input, source `inputs + g` is the output of gate `g`, and a
    gate only reads sources that come before it. */
module Networks {
  import opened Bits

  datatype Gate = Gate(a: nat, b: nat)
  type Net = seq<Gate>
  type Column = seq<bool>

  ghost predicate Topological(net: Net, inputs: nat) {
    forall g :: 0 <= g < |net| ==> net[g].a < inputs + g && net[g].b < inputs + g
  }

  /** The signal on source `src` in row `row` of the truth table. */
  ghost function Value(net: Net, inputs: nat, row: nat, src: nat): bool
    requires Topological(net, inputs) && src < inputs + |net|
    decreases src
  {
    if src < inputs then Bit(row, src)
    else
      var gate := net[src - inputs];
      !(Value(net, inputs, row, gate.a) && Value(net, inputs, row, gate.b))
  }

  /** The truth table of a source. */
  ghost function ColumnOf(net: Net, inputs: nat, src: nat): (c: Column)
    requires Topological(net, inputs) && src < inputs + |net|
    ensures |c| == Pow2(inputs)
    ensures forall row :: 0 <= row < |c| ==> c[row] == Value(net, inputs, row, src)
  {
    seq(Pow2(inputs), row requires 0 <= row => Value(net, inputs, row, src))
  }

  ghost function GateColumn(net: Net, inputs: nat, g: nat): (c: Column)
    requires Topological(net, inputs) && g < |net|
    ensures |c| == Pow2(inputs)
    ensures forall row :: 0 <= row < |c| ==> c[row] == Value(net, inputs, row, inputs + g)
  {
    ColumnOf(net, inputs, inputs + g)
  }

  ghost predicate Constant(c: Column) {
    forall i, j :: 0 <= i < |c| && 0 <= j < |c| ==> c[i] == c[j]
  }

  ghost predicate CopyOf(c: Column, m: nat) {
    forall row :: 0 <= row < |c| ==> c[row] == Bit(row, m)
  }

  /** Neither constant nor a copy of an input. */
  ghost predicate Proper(c: Column, inputs: nat) {
    |c| == Pow2(inputs) && !Constant(c) && forall m :: 0 <= m < inputs ==> !CopyOf(c, m)
  }

  /** Some row changes its value in `c` when input `m` is switched on. */
  ghost predicate DependsOn(c: Column, m: nat) {
    exists row :: 0 <= row && row + Pow2(m) < |c| && !Bit(row, m) && c[row] != c[row + Pow2(m)]
  }

  ghost predicate Drives(net: Net, inputs: nat, g: nat, c: Column)
    requires Topological(net, inputs) && g < |net|
  {
    GateColumn(net, inputs, g) == c
  }

  /** Every wanted column is the output of some gate. */
  ghost predicate Computes(net: Net, inputs: nat, wanted: set<Column>)
    requires Topological(net, inputs)
  {
    forall c :: c in wanted ==> exists g :: 0 <= g < |net| && Drives(net, inputs, g, c)
  }

  ghost predicate Minimum(net: Net, inputs: nat, wanted: set<Column>) {
    && Topological(net, inputs)
    && Computes(net, inputs, wanted)
    && forall other: Net :: Topological(other, inputs) && Computes(other, inputs, wanted) ==> |net| <= |other|
  }

  /** Gate `r` feeds another gate. */
  ghost predicate Referenced(net: Net, inputs: nat, r: nat) {
    exists g :: 0 <= g < |net| && (net[g].a == inputs + r || net[g].b == inputs + r)
  }

  /** A gate's signal only depends on the gates up to it. */
  lemma ValueOfPrefix(net: Net, other: Net, inputs: nat, row: nat, src: nat)
    requires Topological(net, inputs) && Topological(other, inputs)
    requires src < inputs + |net| && src < inputs + |other|
    requires forall g :: 0 <= g && inputs + g <= src ==> net[g] == other[g]
    ensures Value(net, inputs, row, src) == Value(other, inputs, row, src)
    decreases src
  {
    if src >= inputs {
      var gate := net[src - inputs];
      assert gate == other[src - inputs];
      ValueOfPrefix(net, other, inputs, row, gate.a);
      ValueOfPrefix(net, other, inputs, row, gate.b);
    }
  }

  /** A gate that no row distinguishes from its replacement may be replaced, all gates at
      once: the new operands only have to give the same NAND in the old network. */
  lemma {:induction false} RewireKeepsValues(net: Net, other: Net, inputs: nat, row: nat, src: nat)
    requires Topological(net, inputs) && Topological(other, inputs) && |net| == |other|
    requires src < inputs + |net|
    requires forall g :: 0 <= g < |net| ==>
      Value(net, inputs, row, inputs + g)
      == !(Value(net, inputs, row, other[g].a) && Value(net, inputs, row, other[g].b))
    ensures Value(other, inputs, row, src) == Value(net, inputs, row, src)
    decreases src
  {
    if src >= inputs {
      var g := src - inputs;
      RewireKeepsValues(net, other, inputs, row, other[g].a);
      RewireKeepsValues(net, other, inputs, row, other[g].b);
      assert Value(net, inputs, row, inputs + g)
        == !(Value(net, inputs, row, other[g].a) && Value(net, inputs, row, other[g].b));
    }
  }
}
