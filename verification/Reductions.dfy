/** Why the generator may prune: a network holding a constant gate, a gate that repeats an
    earlier source, or a gate nobody reads, computes the same columns with one gate less. */
module Reductions {
  import opened Bits
  import opened Networks

  // ---- Dropping a gate nobody reads ----

  function Shift(x: nat, inputs: nat, r: nat): nat {
    if x > inputs + r then x - 1 else x
  }

  ghost function Drop(net: Net, inputs: nat, r: nat): (shorter: Net)
    requires r < |net|
    ensures |shorter| == |net| - 1
  {
    seq(|net| - 1, k requires 0 <= k < |net| - 1 =>
      var gate := net[if k < r then k else k + 1];
      Gate(Shift(gate.a, inputs, r), Shift(gate.b, inputs, r)))
  }

  lemma DropTopological(net: Net, inputs: nat, r: nat)
    requires Topological(net, inputs) && r < |net| && !Referenced(net, inputs, r)
    ensures Topological(Drop(net, inputs, r), inputs)
  {
    var shorter := Drop(net, inputs, r);
    forall k | 0 <= k < |shorter|
      ensures shorter[k].a < inputs + k && shorter[k].b < inputs + k
    {
      var g := if k < r then k else k + 1;
      assert net[g].a < inputs + g && net[g].b < inputs + g;
      assert net[g].a != inputs + r && net[g].b != inputs + r;
      assert shorter[k] == Gate(Shift(net[g].a, inputs, r), Shift(net[g].b, inputs, r));
    }
  }

  lemma {:induction false} DropKeepsValues(net: Net, inputs: nat, r: nat, row: nat, src: nat)
    requires Topological(net, inputs) && r < |net| && !Referenced(net, inputs, r)
    requires src < inputs + |net| && src != inputs + r
    requires Topological(Drop(net, inputs, r), inputs)
    ensures Value(Drop(net, inputs, r), inputs, row, Shift(src, inputs, r)) == Value(net, inputs, row, src)
    decreases src
  {
    if src >= inputs {
      var g := src - inputs;
      assert net[g].a != inputs + r && net[g].b != inputs + r;
      DropKeepsValues(net, inputs, r, row, net[g].a);
      DropKeepsValues(net, inputs, r, row, net[g].b);
      var k := Shift(src, inputs, r) - inputs;
      assert Drop(net, inputs, r)[k] == Gate(Shift(net[g].a, inputs, r), Shift(net[g].b, inputs, r));
    }
  }

  /** All columns that some other gate drives survive the removal of gate `r`. */
  lemma DropKeepsComputes(net: Net, inputs: nat, wanted: set<Column>, r: nat)
    requires Topological(net, inputs) && r < |net| && !Referenced(net, inputs, r)
    requires forall c :: c in wanted ==> exists g :: 0 <= g < |net| && g != r && Drives(net, inputs, g, c)
    ensures Topological(Drop(net, inputs, r), inputs)
    ensures Computes(Drop(net, inputs, r), inputs, wanted)
  {
    DropTopological(net, inputs, r);
    var shorter := Drop(net, inputs, r);
    forall c | c in wanted
      ensures exists k :: 0 <= k < |shorter| && Drives(shorter, inputs, k, c)
    {
      var g :| 0 <= g < |net| && g != r && Drives(net, inputs, g, c);
      var k := Shift(inputs + g, inputs, r) - inputs;
      var old_column, new_column := GateColumn(net, inputs, g), GateColumn(shorter, inputs, k);
      forall row: nat | row < Pow2(inputs)
        ensures new_column[row] == old_column[row]
      {
        DropKeepsValues(net, inputs, r, row, inputs + g);
      }
      assert new_column == old_column;
      assert Drives(shorter, inputs, k, c);
    }
  }

  // ---- Making a gate unread ----

  /** `other` reads different operands, but each gate's NAND is the same in every row. */
  ghost predicate SameNands(net: Net, other: Net, inputs: nat)
    requires Topological(net, inputs) && Topological(other, inputs) && |net| == |other|
  {
    forall row: nat, g: nat :: row < Pow2(inputs) && g < |net| ==>
      Value(net, inputs, row, inputs + g)
      == !(Value(net, inputs, row, other[g].a) && Value(net, inputs, row, other[g].b))
  }

  lemma RewireKeepsColumns(net: Net, other: Net, inputs: nat, src: nat)
    requires Topological(net, inputs) && Topological(other, inputs) && |net| == |other|
    requires SameNands(net, other, inputs) && src < inputs + |net|
    ensures ColumnOf(other, inputs, src) == ColumnOf(net, inputs, src)
  {
    forall row: nat | row < Pow2(inputs)
      ensures Value(other, inputs, row, src) == Value(net, inputs, row, src)
    {
      RewireKeepsValues(net, other, inputs, row, src);
    }
  }

  /** Rewire, then drop. */
  lemma RewireAndDrop(net: Net, other: Net, inputs: nat, wanted: set<Column>, r: nat)
    requires Topological(net, inputs) && Topological(other, inputs) && |net| == |other|
    requires SameNands(net, other, inputs) && r < |net| && !Referenced(other, inputs, r)
    requires forall c :: c in wanted ==> exists g :: 0 <= g < |net| && g != r && Drives(net, inputs, g, c)
    ensures Topological(Drop(other, inputs, r), inputs)
    ensures Computes(Drop(other, inputs, r), inputs, wanted)
  {
    forall c | c in wanted
      ensures exists g :: 0 <= g < |other| && g != r && Drives(other, inputs, g, c)
    {
      var g :| 0 <= g < |net| && g != r && Drives(net, inputs, g, c);
      RewireKeepsColumns(net, other, inputs, inputs + g);
      assert Drives(other, inputs, g, c);
    }
    DropKeepsComputes(other, inputs, wanted, r);
  }

  function Redirect(x: nat, from: nat, to: nat): nat {
    if x == from then to else x
  }

  ghost function RedirectAll(net: Net, from: nat, to: nat): (other: Net)
    ensures |other| == |net|
  {
    seq(|net|, g requires 0 <= g < |net| => Gate(Redirect(net[g].a, from, to), Redirect(net[g].b, from, to)))
  }

  /** A gate with the column of an earlier source - a repeated pair, a NOT of a NOT, a copy
      of an input - is superfluous. */
  lemma RepeatIsSuperfluous(net: Net, inputs: nat, wanted: set<Column>, r: nat, q: nat) returns (smaller: Net)
    requires Topological(net, inputs) && Computes(net, inputs, wanted)
    requires r < |net| && q < inputs + r
    requires GateColumn(net, inputs, r) == ColumnOf(net, inputs, q)
    requires forall c :: c in wanted ==> Proper(c, inputs)
    ensures Topological(smaller, inputs) && Computes(smaller, inputs, wanted) && |smaller| == |net| - 1
  {
    var other := RedirectAll(net, inputs + r, q);
    assert Topological(other, inputs);
    assert SameNands(net, other, inputs) by {
      forall row: nat, g: nat | row < Pow2(inputs) && g < |net|
        ensures Value(net, inputs, row, inputs + g)
          == !(Value(net, inputs, row, other[g].a) && Value(net, inputs, row, other[g].b))
      {
        assert GateColumn(net, inputs, r)[row] == ColumnOf(net, inputs, q)[row];
      }
    }
    forall c | c in wanted
      ensures exists g :: 0 <= g < |net| && g != r && Drives(net, inputs, g, c)
    {
      var g :| 0 <= g < |net| && Drives(net, inputs, g, c);
      if g == r {
        if q < inputs {
          assert CopyOf(c, q);
          assert false;
        } else {
          assert Drives(net, inputs, q - inputs, c);
        }
      }
    }
    RewireAndDrop(net, other, inputs, wanted, r);
    smaller := Drop(other, inputs, r);
  }

  /** A gate that is constant makes the network improvable. The last constant gate is 1 or
      unread by non-constant gates; NAND(x, 1) is NAND(x, x). */
  lemma ConstantIsSuperfluous(net: Net, inputs: nat, wanted: set<Column>, r: nat) returns (smaller: Net)
    requires Topological(net, inputs) && Computes(net, inputs, wanted)
    requires r < |net| && Constant(GateColumn(net, inputs, r))
    requires forall c :: c in wanted ==> Proper(c, inputs)
    ensures Topological(smaller, inputs) && Computes(smaller, inputs, wanted) && |smaller| == |net| - 1
    decreases |net| - r
  {
    if k :| r < k < |net| && Constant(GateColumn(net, inputs, k)) {
      smaller := ConstantIsSuperfluous(net, inputs, wanted, k);
      return;
    }
    var from := inputs + r;
    var other := seq(|net|, g requires 0 <= g < |net| =>
      Gate(if net[g].a == from && net[g].b != from then net[g].b else net[g].a,
           if net[g].b == from && net[g].a != from then net[g].a else net[g].b));
    assert Topological(other, inputs);
    forall g | 0 <= g < |net| && (net[g].a == from || net[g].b == from)
      ensures net[g].a != net[g].b && forall row :: 0 <= row < Pow2(inputs) ==> GateColumn(net, inputs, r)[row]
    {
      ReaderOfConstant(net, inputs, r, g);
    }
    assert !Referenced(other, inputs, r);
    assert SameNands(net, other, inputs) by {
      forall row: nat, g: nat | row < Pow2(inputs) && g < |net|
        ensures Value(net, inputs, row, inputs + g)
          == !(Value(net, inputs, row, other[g].a) && Value(net, inputs, row, other[g].b))
      {
        assert net[g].a == from || net[g].b == from ==> GateColumn(net, inputs, r)[row];
      }
    }
    forall c | c in wanted
      ensures exists g :: 0 <= g < |net| && g != r && Drives(net, inputs, g, c)
    {
      var g :| 0 <= g < |net| && Drives(net, inputs, g, c);
    }
    RewireAndDrop(net, other, inputs, wanted, r);
    smaller := Drop(other, inputs, r);
  }

  /** A non-constant reader of a constant reads a 1, and only once. */
  lemma ReaderOfConstant(net: Net, inputs: nat, r: nat, g: nat)
    requires Topological(net, inputs) && r < |net| && g < |net|
    requires Constant(GateColumn(net, inputs, r)) && !Constant(GateColumn(net, inputs, g))
    requires net[g].a == inputs + r || net[g].b == inputs + r
    ensures net[g].a != net[g].b
    ensures forall row :: 0 <= row < Pow2(inputs) ==> GateColumn(net, inputs, r)[row]
  {
    var c, d := GateColumn(net, inputs, r), GateColumn(net, inputs, g);
    var i, j :| 0 <= i < |d| && 0 <= j < |d| && d[i] != d[j];
    assert c[i] == c[j] == Value(net, inputs, i, inputs + r) == Value(net, inputs, j, inputs + r);
    forall row | 0 <= row < Pow2(inputs)
      ensures c[row]
    {
      assert c[row] == c[i];
    }
  }

  lemma UnreadIsSuperfluous(net: Net, inputs: nat, wanted: set<Column>, r: nat) returns (smaller: Net)
    requires Topological(net, inputs) && Computes(net, inputs, wanted)
    requires r < |net| && !Referenced(net, inputs, r) && GateColumn(net, inputs, r) !in wanted
    ensures Topological(smaller, inputs) && Computes(smaller, inputs, wanted) && |smaller| == |net| - 1
  {
    forall c | c in wanted
      ensures exists g :: 0 <= g < |net| && g != r && Drives(net, inputs, g, c)
    {
      var g :| 0 <= g < |net| && Drives(net, inputs, g, c);
    }
    DropKeepsComputes(net, inputs, wanted, r);
    smaller := Drop(net, inputs, r);
  }

  // ---- What a minimum network looks like ----

  ghost predicate RepeatsEarlier(net: Net, inputs: nat, r: nat, q: nat)
    requires Topological(net, inputs) && r < |net| && q < inputs + r
  {
    GateColumn(net, inputs, r) == ColumnOf(net, inputs, q)
  }

  ghost predicate Irredundant(net: Net, inputs: nat, wanted: set<Column>)
    requires Topological(net, inputs)
  {
    && (forall r :: 0 <= r < |net| ==> !Constant(GateColumn(net, inputs, r)))
    && (forall r: nat, q: nat :: r < |net| && q < inputs + r ==> !RepeatsEarlier(net, inputs, r, q))
    && (forall r :: 0 <= r < |net| ==>
          Referenced(net, inputs, r) || GateColumn(net, inputs, r) in wanted)
  }

  /** Every kind of redundancy costs a gate. */
  lemma RedundantIsImprovable(net: Net, inputs: nat, wanted: set<Column>) returns (smaller: Net)
    requires Topological(net, inputs) && Computes(net, inputs, wanted) && !Irredundant(net, inputs, wanted)
    requires forall c :: c in wanted ==> Proper(c, inputs)
    ensures Topological(smaller, inputs) && Computes(smaller, inputs, wanted) && |smaller| == |net| - 1
  {
    if r :| 0 <= r < |net| && Constant(GateColumn(net, inputs, r)) {
      smaller := ConstantIsSuperfluous(net, inputs, wanted, r);
    } else if r: nat, q: nat :| r < |net| && q < inputs + r && RepeatsEarlier(net, inputs, r, q) {
      smaller := RepeatIsSuperfluous(net, inputs, wanted, r, q);
    } else {
      var r :| 0 <= r < |net| && !Referenced(net, inputs, r) && GateColumn(net, inputs, r) !in wanted;
      smaller := UnreadIsSuperfluous(net, inputs, wanted, r);
    }
  }

  lemma MinimumIsIrredundant(net: Net, inputs: nat, wanted: set<Column>)
    requires Minimum(net, inputs, wanted)
    requires forall c :: c in wanted ==> Proper(c, inputs)
    ensures Irredundant(net, inputs, wanted)
  {
    if !Irredundant(net, inputs, wanted) {
      var smaller := RedundantIsImprovable(net, inputs, wanted);
      assert false;
    }
  }
}
