/** What the front end asks for is what the catalogue covers: the compressed outputs are
    cataloguable, and the key under which they are looked up is the one under which the least
    network for them has been logged. */
module QueryOptimality {
  import opened Bits
  import opened Codec
  import opened Networks
  import opened Extraction
  import opened CanonicalKeys
  import opened GateBuilder
  import opened Optimum
  import opened Catalogue
  import opened Insertion
  import opened Optimality
  import opened CatalogueRun
  import opened TableRows
  import opened Comparator
  import opened Analysis
  import opened Analyzer
  import opened FrontEnd
  import opened EndToEnd
  import opened KeyAgreement

  /** Switching a kept input on moves the compressed row by its place. */
  lemma {:induction false} PositionMoves(t: nat, m: nat, k: nat, off: set<nat>)
    requires !Bit(t, m) && m !in off
    ensures Position(t + Pow2(m), k, off) == Position(t, k, off) + if m < k then Pow2(TableRows.Rank(m, off)) else 0
    decreases k
  {
    if k > 0 {
      PositionMoves(t, m, k - 1, off);
      SetClearBit(t, m, k - 1);
    }
  }

  lemma NewColumnValue(table: TruthTable, inputs: nat, off: set<nat>, chosen: seq<nat>, o: nat, l: nat)
    requires |table| == Pow2(inputs) && l < |table| && o < |chosen|
    requires forall m :: m in off ==> !DependsOn(MaskColumn(table, chosen[o]), m)
    ensures var p, modified := Position(l, inputs, off), Modified(table, off, chosen);
      p < |modified| && MaskColumn(modified, o)[p] == MaskColumn(table, chosen[o])[l]
  {
    RowAtPosition(l, inputs, off);
    DropTogether(MaskColumn(table, chosen[o]), inputs, off, l);
  }

  /** A compressed meaningful output is neither constant nor a copy. */
  lemma CompressedIsProper(table: TruthTable, inputs: nat, off: set<nat>, chosen: seq<nat>, o: nat)
    requires |table| == Pow2(inputs) && o < |chosen| && Meaningful(MaskColumn(table, chosen[o]), inputs, off)
    ensures Proper(MaskColumn(Modified(table, off, chosen), o), TableRows.Rank(inputs, off))
  {
    var c, d := MaskColumn(table, chosen[o]), MaskColumn(Modified(table, off, chosen), o);
    RowAtPosition(0, inputs, off);
    var i, j :| 0 <= i < |c| && 0 <= j < |c| && c[i] != c[j];
    NewColumnValue(table, inputs, off, chosen, o, i);
    NewColumnValue(table, inputs, off, chosen, o, j);
    forall v | 0 <= v < TableRows.Rank(inputs, off)
      ensures !CopyOf(d, v)
    {
      if CopyOf(d, v) {
        CopyIsCopy(table, inputs, off, chosen, o, v);
        assert false;
      }
    }
  }

  lemma CopyIsCopy(table: TruthTable, inputs: nat, off: set<nat>, chosen: seq<nat>, o: nat, v: nat)
    requires |table| == Pow2(inputs) && o < |chosen| && v < TableRows.Rank(inputs, off)
    requires forall m :: m in off ==> !DependsOn(MaskColumn(table, chosen[o]), m)
    requires CopyOf(MaskColumn(Modified(table, off, chosen), o), v)
    ensures exists m :: 0 <= m < inputs && CopyOf(MaskColumn(table, chosen[o]), m)
  {
    var m := PlaceHasVariable(inputs, off, v);
    forall l | 0 <= l < |table|
      ensures MaskColumn(table, chosen[o])[l] == Bit(l, m)
    {
      NewColumnValue(table, inputs, off, chosen, o, l);
      PositionBits(l, inputs, off, m);
    }
    assert CopyOf(MaskColumn(table, chosen[o]), m);
  }

  lemma DifferentRow(c: Column, m: nat) returns (t: nat)
    requires DependsOn(c, m)
    ensures t + Pow2(m) < |c| && !Bit(t, m) && c[t] != c[t + Pow2(m)]
  {
    t :| t + Pow2(m) < |c| && !Bit(t, m) && c[t] != c[t + Pow2(m)];
  }

  /** Dependence on a kept input survives the compression. */
  lemma CompressedDepends(table: TruthTable, inputs: nat, off: set<nat>, chosen: seq<nat>, o: nat, m: nat)
    requires |table| == Pow2(inputs) && o < |chosen| && m < inputs && m !in off
    requires (forall k :: k in off ==> !DependsOn(MaskColumn(table, chosen[o]), k))
      && DependsOn(MaskColumn(table, chosen[o]), m)
    ensures DependsOn(MaskColumn(Modified(table, off, chosen), o), TableRows.Rank(m, off))
  {
    var t := DifferentRow(MaskColumn(table, chosen[o]), m);
    hide *;
    NewColumnDiffers(table, inputs, off, chosen, o, m, t);
  }

  lemma NewColumnDiffers(table: TruthTable, inputs: nat, off: set<nat>, chosen: seq<nat>, o: nat, m: nat, t: nat)
    requires |table| == Pow2(inputs) && o < |chosen| && m < inputs && m !in off
    requires forall k :: k in off ==> !DependsOn(MaskColumn(table, chosen[o]), k)
    requires t + Pow2(m) < |table| && !Bit(t, m)
      && MaskColumn(table, chosen[o])[t] != MaskColumn(table, chosen[o])[t + Pow2(m)]
    ensures DependsOn(MaskColumn(Modified(table, off, chosen), o), TableRows.Rank(m, off))
  {
    NewColumnValue(table, inputs, off, chosen, o, t);
    NewColumnValue(table, inputs, off, chosen, o, t + Pow2(m));
    MovedRow(t, inputs, off, m);
    var d, p, q := MaskColumn(Modified(table, off, chosen), o), Position(t, inputs, off), Position(t + Pow2(m), inputs, off);
    assert p < |d| && q < |d| && d[p] != d[q];
    RowsDiffer(d, p, q, TableRows.Rank(m, off));
  }

  lemma MovedRow(t: nat, inputs: nat, off: set<nat>, m: nat)
    requires m < inputs && m !in off && !Bit(t, m)
    ensures var p, v := Position(t, inputs, off), TableRows.Rank(m, off);
      Position(t + Pow2(m), inputs, off) == p + Pow2(v) && !Bit(p, v)
  {
    PositionMoves(t, m, inputs, off);
    PositionBits(t, inputs, off, m);
  }

  lemma RowsDiffer(d: Column, p: nat, q: nat, v: nat)
    requires q == p + Pow2(v) && q < |d| && !Bit(p, v) && d[p] != d[q]
    ensures DependsOn(d, v)
  {
  }

  /** Every meaningful output has a selected one with its column. */
  lemma {:induction false} Representative(table: TruthTable, inputs: nat, outputs: nat, order: seq<nat>,
                                          alias: map<nat, nat>,
                                          off: set<nat>, n: nat) returns (o: nat)
    requires Outcome(table, inputs, outputs, order, alias, off) && TellsApart(inputs, off)
    requires n < outputs && n !in TrivialTargets(table, inputs, outputs)
    ensures var chosen := Selected(order, TrivialTargets(table, inputs, outputs).Keys + alias.Keys);
      o < |chosen| && MaskColumn(table, chosen[o]) == MaskColumn(table, n)
    decreases n
  {
    if n in alias {
      AliasIsSame(table, inputs, outputs, order, alias, n);
      o := Representative(table, inputs, outputs, order, alias, off, alias[n]);
    } else {
      assert Has(order, n);
      o := NumberOf(Selected(order, TrivialTargets(table, inputs, outputs).Keys + alias.Keys), n);
    }
  }

  lemma SelectedIsMeaningful(table: TruthTable, inputs: nat, outputs: nat, order: seq<nat>, alias: map<nat, nat>,
                             form: NormalForm, o: nat)
    requires IsNormalForm(table, inputs, outputs, order, alias, form) && o < form.numOutputs
    ensures var chosen := Selected(order, TrivialTargets(table, inputs, outputs).Keys + alias.Keys);
      chosen[o] < outputs && Meaningful(MaskColumn(table, chosen[o]), inputs, form.off)
  {
    var trivial := TrivialTargets(table, inputs, outputs);
    var chosen := Selected(order, trivial.Keys + alias.Keys);
    assert chosen[o] in chosen;
    var i :| 0 <= i < |order| && order[i] == chosen[o];
    TrivialTargetIsExact(MaskColumn(table, chosen[o]), inputs);
  }

  /** The front end only asks for functions that the catalogue is about. */
  lemma QueryIsCataloguable(table: TruthTable, inputs: nat, outputs: nat, order: seq<nat>, alias: map<nat, nat>,
                            form: NormalForm)
    requires IsNormalForm(table, inputs, outputs, order, alias, form) && !Gap(inputs, form.off)
    ensures Cataloguable(ColumnSet(NewColumns(form.modified, form.numOutputs)), form.numInputs)
  {
    var columns := NewColumns(form.modified, form.numOutputs);
    NoGapTellsApart(inputs, form.off);
    forall c | c in ColumnSet(columns)
      ensures Proper(c, form.numInputs)
    {
      var o :| 0 <= o < |columns| && columns[o] == c;
      NewColumnIsProper(table, inputs, outputs, order, alias, form, o);
    }
    forall v: nat | v < form.numInputs
      ensures SomeDependsOn(ColumnSet(columns), v)
    {
      var o := PlaceIsNeeded(table, inputs, outputs, order, alias, form, v);
      assert columns[o] in ColumnSet(columns);
    }
  }

  lemma NewColumnIsProper(table: TruthTable, inputs: nat, outputs: nat, order: seq<nat>, alias: map<nat, nat>,
                          form: NormalForm, o: nat)
    requires IsNormalForm(table, inputs, outputs, order, alias, form) && o < form.numOutputs
    ensures Proper(MaskColumn(form.modified, o), form.numInputs)
  {
    var chosen := Selected(order, TrivialTargets(table, inputs, outputs).Keys + alias.Keys);
    SelectedIsMeaningful(table, inputs, outputs, order, alias, form, o);
    CompressedIsProper(table, inputs, form.off, chosen, o);
  }

  lemma PlaceIsNeeded(table: TruthTable, inputs: nat, outputs: nat, order: seq<nat>, alias: map<nat, nat>,
                      form: NormalForm, v: nat)
    returns (o: nat)
    requires IsNormalForm(table, inputs, outputs, order, alias, form) && TellsApart(inputs, form.off)
      && v < form.numInputs
    ensures o < form.numOutputs && DependsOn(MaskColumn(form.modified, o), v)
  {
    var trivial := TrivialTargets(table, inputs, outputs);
    var m := PlaceHasVariable(inputs, form.off, v);
    assert !Unread(table, outputs, trivial.Keys, m);
    var n :| 0 <= n < outputs && n !in trivial.Keys && DependsOn(MaskColumn(table, n), m);
    o := Representative(table, inputs, outputs, order, alias, form.off, n);
    SelectedIsMeaningful(table, inputs, outputs, order, alias, form, o);
    CompressedDepends(table, inputs, form.off, Selected(order, trivial.Keys + alias.Keys), o, m);
  }

  /** The key of the query is the key of every logged line about its functions. */
  lemma QueryKeyIsLogged(table: TruthTable, inputs: nat, outputs: nat, order: seq<nat>, alias: map<nat, nat>,
                         form: NormalForm,
                         key: string, sub: Submission, record: Record, gates: nat, logged: seq<nat>)
    requires IsNormalForm(table, inputs, outputs, order, alias, form) && !Gap(inputs, form.off)
    requires NoTwins(table, inputs, outputs, order, form.off)
    requires IsColumns(NewColumns(form.modified, form.numOutputs), form.numInputs)
    requires AllClose(NewColumns(form.modified, form.numOutputs), form.numInputs)
    requires Encodes(BASE64_CSET, key, KeyBits(form.numInputs, NewColumns(form.modified, form.numOutputs)))
    requires LineAbout(sub, record, form, gates, logged)
    ensures key == sub.line.key
  {
    OutputColumnsSized(record, form.numInputs, gates, logged);
    var family := OutputColumns(record, logged);
    KeysAgree(table, inputs, outputs, order, alias, form, key, family, sub.line.key);
  }

  /** After a run of the catalogue that was not interrupted at the gate count that is needed, the
      functions of a query are logged exactly once under a search key of their own, with the
      least number of gates; and if no two tables are too far apart, every line about them has
      the key of the query. */
  lemma QueryFindsOptimum(table: TruthTable, inputs: nat, outputs: nat, order: seq<nat>, alias: map<nat, nat>,
                          form: NormalForm,
                          key: string, run: Run, net: Net) returns (searchKey: string)
    requires IsNormalForm(table, inputs, outputs, order, alias, form) && !Gap(inputs, form.off)
    requires NoTwins(table, inputs, outputs, order, form.off)
    requires Encodes(BASE64_CSET, key, KeyBits(form.numInputs, NewColumns(form.modified, form.numOutputs)))
    requires var wanted := ColumnSet(NewColumns(form.modified, form.numOutputs));
      && Minimum(net, form.numInputs, wanted) && run.inputs == form.numInputs && run.outputs == |wanted|
      && IsRun(run) && Reaches(run, |net|)
    ensures KeyOf(searchKey, form.numInputs, ColumnSet(NewColumns(form.modified, form.numOutputs)))
    ensures Counts(run.final.log, searchKey) == [|net|]
    ensures IsColumns(NewColumns(form.modified, form.numOutputs), form.numInputs)
    ensures AllClose(NewColumns(form.modified, form.numOutputs), form.numInputs) ==>
      forall sub, record, gates, logged :: LineAbout(sub, record, form, gates, logged) ==> key == sub.line.key
  {
    var wanted := ColumnSet(NewColumns(form.modified, form.numOutputs));
    QueryIsCataloguable(table, inputs, outputs, order, alias, form);
    NewColumnsAreFrontList(table, inputs, outputs, order, alias, form);
    searchKey := CatalogueIsOptimal(run, net, wanted);
    if AllClose(NewColumns(form.modified, form.numOutputs), form.numInputs) {
      forall sub, record, gates, logged | LineAbout(sub, record, form, gates, logged)
        ensures key == sub.line.key
      {
        QueryKeyIsLogged(table, inputs, outputs, order, alias, form, key, sub, record, gates, logged);
      }
    }
  }

  /** Up to 4 kept variables no two tables are too far apart. */
  lemma FourInputsAreClose(columns: seq<Column>, inputs: nat)
    requires inputs <= 4 && IsColumns(columns, inputs)
    ensures AllClose(columns, inputs)
  {
    TablesAreFamily(columns, inputs);
    SmallIsClose(columns, inputs);
  }

  /** A line for some network that computes the functions of the query. */
  ghost predicate LineAbout(sub: Submission, record: Record, form: NormalForm, gates: nat, logged: seq<nat>) {
    && IsRecord(record, form.numInputs, gates) && Describes(sub, record, form.numInputs, gates, logged)
    && ColumnSet(OutputColumns(record, logged)) == ColumnSet(NewColumns(form.modified, form.numOutputs))
  }
}
