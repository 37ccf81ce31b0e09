/** How generator, catalogue and insertion protocol come to the least number of gates: a minimum
    network for a cataloguable set of functions is among the records, its submission has a key
    of those functions, and no network behind that key has fewer gates. */
module Optimality {
  import opened Packer
  import opened Networks
  import opened Reductions
  import opened Renumbering
  import opened Odometer
  import opened GateBuilder
  import opened Optimum
  import opened OutputOrder
  import opened CanonicalKeys
  import opened Extraction
  import opened Catalogue
  import opened Insertion
  import opened Lists

  // ---- The outputs of a network that computes a set of functions ----

  /** The gates below `n` that drive a wanted column. */
  ghost function OutputGates(net: Net, inputs: nat, wanted: set<Column>, n: nat): (outputs: seq<nat>)
    requires Topological(net, inputs) && n <= |net|
    ensures forall g :: g in outputs <==> 0 <= g < n && GateColumn(net, inputs, g) in wanted
    ensures Climbs(outputs)
  {
    if n == 0 then []
    else
      var rest := OutputGates(net, inputs, wanted, n - 1);
      assert forall i :: 0 <= i < |rest| ==> rest[i] in rest;
      if GateColumn(net, inputs, n - 1) in wanted then rest + [n - 1] else rest
  }

  ghost function ColumnsOf(net: Net, inputs: nat, outputs: seq<nat>): (columns: seq<Column>)
    requires Topological(net, inputs) && forall i :: 0 <= i < |outputs| ==> outputs[i] < |net|
    ensures |columns| == |outputs|
    ensures forall i :: 0 <= i < |outputs| ==> columns[i] == GateColumn(net, inputs, outputs[i])
  {
    seq(|outputs|, i requires 0 <= i < |outputs| => GateColumn(net, inputs, outputs[i]))
  }

  /** In an irredundant network every wanted column has exactly one gate. */
  lemma OutputGatesFit(net: Net, inputs: nat, wanted: set<Column>)
    requires Topological(net, inputs) && Computes(net, inputs, wanted) && Irredundant(net, inputs, wanted)
    ensures var outputs := OutputGates(net, inputs, wanted, |net|);
      && (forall i :: 0 <= i < |outputs| ==> outputs[i] < |net|)
      && var columns := ColumnsOf(net, inputs, outputs);
         !Repeats(columns) && ColumnSet(columns) == wanted && |outputs| == |wanted|
  {
    var outputs := OutputGates(net, inputs, wanted, |net|);
    assert forall i :: 0 <= i < |outputs| ==> outputs[i] in outputs;
    var columns := ColumnsOf(net, inputs, outputs);
    GatesDiffer(net, inputs, wanted, outputs);
    forall c | c in wanted
      ensures c in columns
    {
      GateIsListed(net, inputs, wanted, c, outputs);
    }
    SameMembers(columns, wanted);
  }

  lemma GatesDiffer(net: Net, inputs: nat, wanted: set<Column>, outputs: seq<nat>)
    requires Topological(net, inputs) && Irredundant(net, inputs, wanted)
    requires Climbs(outputs) && forall i :: 0 <= i < |outputs| ==> outputs[i] < |net|
    ensures !Repeats(ColumnsOf(net, inputs, outputs))
  {
    var columns := ColumnsOf(net, inputs, outputs);
    forall i, j | 0 <= i < j < |columns|
      ensures columns[i] != columns[j]
    {
      assert !RepeatsEarlier(net, inputs, outputs[j], inputs + outputs[i]);
    }
  }

  lemma SameMembers(columns: seq<Column>, wanted: set<Column>)
    requires !Repeats(columns) && forall c :: c in columns <==> c in wanted
    ensures ColumnSet(columns) == wanted && |columns| == |wanted|
  {
    DistinctCount(columns, wanted);
  }

  lemma GateIsListed(net: Net, inputs: nat, wanted: set<Column>, c: Column, outputs: seq<nat>)
    requires Topological(net, inputs) && Computes(net, inputs, wanted) && c in wanted
    requires outputs == OutputGates(net, inputs, wanted, |net|) && forall i :: 0 <= i < |outputs| ==> outputs[i] < |net|
    ensures c in ColumnsOf(net, inputs, outputs)
  {
    var g :| 0 <= g < |net| && Drives(net, inputs, g, c);
    assert g in outputs;
    var i :| 0 <= i < |outputs| && outputs[i] == g;
    assert ColumnsOf(net, inputs, outputs)[i] == c;
  }

  /** The record of an acceptable minimum network submits the wanted functions. */
  lemma OptimumIsWanted(net: Net, inputs: nat, wanted: set<Column>, record: Record)
    requires Minimum(net, inputs, wanted) && Cataloguable(wanted, inputs)
    requires AllGatesUsed(net, inputs, wanted)
    requires record.gateInputs == Flatten(net) && FaithfulRecord(record, inputs, |net|)
    ensures IsRecord(record, inputs, |net|)
    ensures var outputs := OutputGates(net, inputs, wanted, |net|);
      && Wanted(record, inputs, |net|, outputs) && |outputs| == |wanted|
      && ColumnSet(OutputColumns(record, outputs)) == wanted
  {
    MinimumIsIrredundant(net, inputs, wanted);
    OutputGatesFit(net, inputs, wanted);
    NetOfFlatten(net);
    var outputs := OutputGates(net, inputs, wanted, |net|);
    RecordedColumns(record, inputs, net, outputs);
    RecordUsesAll(record, inputs, net, wanted);
    OutputColumnsSized(record, inputs, |net|, outputs);
    DifferentAreSorted(OutputColumns(record, outputs), inputs);
  }

  lemma RecordedColumns(record: Record, inputs: nat, net: Net, outputs: seq<nat>)
    requires Topological(net, inputs) && NetOf(record.gateInputs) == net && FaithfulRecord(record, inputs, |net|)
    requires forall i :: 0 <= i < |outputs| ==> outputs[i] < |net|
    ensures OutputColumns(record, outputs) == ColumnsOf(net, inputs, outputs)
  {
    forall i | 0 <= i < |outputs|
      ensures OutputColumns(record, outputs)[i] == ColumnsOf(net, inputs, outputs)[i]
    {
      FaithfulColumn(record, inputs, |net|, outputs[i]);
    }
  }

  lemma RecordUsesAll(record: Record, inputs: nat, net: Net, wanted: set<Column>)
    requires Topological(net, inputs) && record.gateInputs == Flatten(net) && AllGatesUsed(net, inputs, wanted)
    ensures UsesAll(record, inputs, |net|, OutputGates(net, inputs, wanted, |net|))
  {
    var outputs := OutputGates(net, inputs, wanted, |net|);
    forall g: nat | g < |net|
      ensures Feeds(record, inputs, g) || g in outputs
    {
      if Referenced(net, inputs, g) {
        ReferencedFeeds(record, inputs, net, g);
      } else {
        assert GateColumn(net, inputs, g) in wanted;
      }
    }
  }

  lemma ReferencedFeeds(record: Record, inputs: nat, net: Net, g: nat)
    requires record.gateInputs == Flatten(net) && Referenced(net, inputs, g)
    ensures Feeds(record, inputs, g)
  {
    var h :| 0 <= h < |net| && (net[h].a == inputs + g || net[h].b == inputs + g);
    FlattenHolds(net, h);
  }

  // ---- Search keys and sets of columns ----

  /** Two submissions with as many outputs have the same search key exactly if their sorted
      lists are the same: then they are about the same set of functions, and all submissions
      about an ordered set of functions have one key. */
  lemma SameKeySameFunctions(sub: Submission, record: Record, gates: nat, outputs: seq<nat>,
                             sub': Submission, record': Record, gates': nat, outputs': seq<nat>, inputs: nat)
    requires IsRecord(record, inputs, gates) && IsRecord(record', inputs, gates')
    requires Describes(sub, record, inputs, gates, outputs) && Describes(sub', record', inputs, gates', outputs')
    requires |outputs| == |outputs'|
    ensures IsColumns(OutputColumns(record, outputs), inputs)
    ensures var a, b := ColumnSet(OutputColumns(record, outputs)), ColumnSet(OutputColumns(record', outputs'));
      && (sub.searchKey == sub'.searchKey ==> a == b)
      && (a == b && OrderedColumns(OutputColumns(record, outputs), inputs) ==> sub.searchKey == sub'.searchKey)
  {
    OutputColumnsSized(record, inputs, gates, outputs);
    OutputColumnsSized(record', inputs, gates', outputs');
    var a, b := OutputColumns(record, outputs), OutputColumns(record', outputs');
    SortedAgree(a, b, inputs);
    SortedMembers(a, inputs);
    SortedMembers(b, inputs);
    var s, t := SortedColumns(a, inputs).value, SortedColumns(b, inputs).value;
    ConcatInjective(s, t, inputs);
    BytesInjective(sub.searchKey, "", Concat(s), sub'.searchKey, Concat(t));
  }

  // ---- The run ----

  /** A submission of a gate count came from some network with that many gates. */
  ghost predicate FromNetwork(entry: Entry<string>, inputs: nat, k: nat, record: Record, outputs: seq<nat>,
                              sub: Submission)
  {
    && FaithfulRecord(record, inputs, entry.gates) && IsRecord(record, inputs, entry.gates)
    && Combinations.IsChoice(outputs, entry.gates, k)
    && Describes(sub, record, inputs, entry.gates, outputs) && sub.searchKey == entry.key
  }

  ghost predicate Honest(done: seq<Entry<string>>, inputs: nat, k: nat) {
    forall entry :: entry in done ==>
      exists record, outputs, sub :: FromNetwork(entry, inputs, k, record, outputs, sub)
  }

  /** Everything that a record has to offer with `k` outputs has been submitted. */
  ghost predicate Offered(done: seq<Entry<string>>, inputs: nat, gates: nat, k: nat, record: Record, outputs: seq<nat>)
    requires IsRecord(record, inputs, gates)
  {
    exists sub :: Describes(sub, record, inputs, gates, outputs) && Entry(sub.searchKey, gates) in done
  }

  ghost predicate Complete(done: seq<Entry<string>>, inputs: nat, gates: nat, k: nat, records: seq<Record>) {
    forall record, outputs ::
      record in records && IsRecord(record, inputs, gates) && |outputs| == k && Wanted(record, inputs, gates, outputs) ==>
        Offered(done, inputs, gates, k, record, outputs)
  }

  /** The records of one job are what the generator writes. */
  ghost predicate Generated(records: seq<Record>, inputs: nat, gates: nat) {
    && Faithful(records, inputs, gates)
    && forall s :: Acceptable(s, inputs, gates) ==> s in GateSequences(records)
  }

  /** The entry under which a cataloguable set of functions is known. */
  ghost predicate KeyOf(key: string, inputs: nat, wanted: set<Column>) {
    exists gates, record, outputs, sub ::
      && IsRecord(record, inputs, gates) && |outputs| == |wanted|
      && Describes(sub, record, inputs, gates, outputs) && sub.searchKey == key
      && ColumnSet(OutputColumns(record, outputs)) == wanted
  }

  lemma OptimumIsDone(done: seq<Entry<string>>, inputs: nat, records: seq<Record>, net: Net, wanted: set<Column>)
    returns (entry: Entry<string>)
    requires Minimum(net, inputs, wanted) && Cataloguable(wanted, inputs)
    requires Generated(records, inputs, |net|) && Complete(done, inputs, |net|, |wanted|, records)
    ensures entry in done && entry.gates == |net| && KeyOf(entry.key, inputs, wanted)
  {
    var other, p := PruningKeepsOptimum(net, inputs, wanted);
    assert Flatten(other) in GateSequences(records);
    var i :| 0 <= i < |records| && records[i].gateInputs == Flatten(other);
    var record := records[i];
    assert FaithfulRecord(record, inputs, |net|);
    OptimumIsWanted(other, inputs, wanted, record);
    var outputs := OutputGates(other, inputs, wanted, |other|);
    assert Offered(done, inputs, |net|, |wanted|, record, outputs);
    var sub :| Describes(sub, record, inputs, |net|, outputs) && Entry(sub.searchKey, |net|) in done;
    entry := Entry(sub.searchKey, |net|);
  }

  /** A network behind an entry of these functions computes them. */
  lemma EntryComputes(entry: Entry<string>, inputs: nat, wanted: set<Column>, record: Record, outputs: seq<nat>,
                      sub: Submission)
    requires FromNetwork(entry, inputs, |wanted|, record, outputs, sub)
    requires KeyOf(entry.key, inputs, wanted)
    ensures var net := NetOf(record.gateInputs);
      Topological(net, inputs) && |net| == entry.gates && Computes(net, inputs, wanted)
  {
    var gates', record', outputs', sub' :|
      && IsRecord(record', inputs, gates') && |outputs'| == |wanted|
      && Describes(sub', record', inputs, gates', outputs') && sub'.searchKey == entry.key
      && ColumnSet(OutputColumns(record', outputs')) == wanted;
    SameKeySameFunctions(sub, record, entry.gates, outputs, sub', record', gates', outputs', inputs);
    var net := NetOf(record.gateInputs);
    forall c | c in wanted
      ensures exists g :: 0 <= g < |net| && Drives(net, inputs, g, c)
    {
      assert c in OutputColumns(record, outputs);
      var i :| 0 <= i < |outputs| && OutputColumns(record, outputs)[i] == c;
      FaithfulColumn(record, inputs, entry.gates, outputs[i]);
      assert Drives(net, inputs, outputs[i], c);
    }
  }

  lemma EntryIsNoBetter(done: seq<Entry<string>>, key: string, n: nat, inputs: nat, net: Net, wanted: set<Column>)
    requires Honest(done, inputs, |wanted|) && Entry(key, n) in done && KeyOf(key, inputs, wanted)
    requires Minimum(net, inputs, wanted)
    ensures |net| <= n
  {
    var record, outputs, sub :| FromNetwork(Entry(key, n), inputs, |wanted|, record, outputs, sub);
    EntryComputes(Entry(key, n), inputs, wanted, record, outputs, sub);
  }

  /** No submission of these functions beats `gates`. */
  ghost predicate NoneBetter(done: seq<Entry<string>>, key: string, gates: nat) {
    forall n: nat :: Entry(key, n) in done ==> gates <= n
  }

  lemma HonestIsNoBetter(done: seq<Entry<string>>, key: string, inputs: nat, net: Net, wanted: set<Column>)
    requires Honest(done, inputs, |wanted|) && KeyOf(key, inputs, wanted)
    requires Minimum(net, inputs, wanted)
    ensures NoneBetter(done, key, |net|)
  {
    forall n: nat | Entry(key, n) in done
      ensures |net| <= n
    {
      EntryIsNoBetter(done, key, n, inputs, net, wanted);
    }
  }

  lemma OptimumIsLogged(maxGates: nat, jobs: seq<Job<string>>, t: State<string>, entry: Entry<string>)
    requires Reached(maxGates, jobs, t) && entry in t.done && NoneBetter(t.done, entry.key, entry.gates)
    ensures Counts(t.log, entry.key) == [entry.gates]
  {
    var n := SubmittedLoggedOnce(maxGates, jobs, t, entry);
  }

  /** If the submissions are honest, and complete for the gate count that is needed, a
      cataloguable set of functions is logged exactly once under a key of its own, with the
      least number of gates. */
  lemma OptimumLoggedOnce(maxGates: nat, jobs: seq<Job<string>>, t: State<string>, inputs: nat, records: seq<Record>,
                          net: Net, wanted: set<Column>) returns (key: string)
    requires Reached(maxGates, jobs, t) && Honest(t.done, inputs, |wanted|)
    requires Generated(records, inputs, |net|) && Complete(t.done, inputs, |net|, |wanted|, records)
    requires Minimum(net, inputs, wanted) && Cataloguable(wanted, inputs)
    ensures KeyOf(key, inputs, wanted) && Counts(t.log, key) == [|net|]
  {
    var entry := OptimumIsDone(t.done, inputs, records, net, wanted);
    key := entry.key;
    HonestIsNoBetter(t.done, key, inputs, net, wanted);
    OptimumIsLogged(maxGates, jobs, t, entry);
  }

  // ---- One key for one set of functions ----

  /** The comparison orders the functions, however they are listed. */
  ghost predicate SetOrdered(wanted: set<Column>, inputs: nat) {
    forall columns: seq<Column> :: IsColumns(columns, inputs) && ColumnSet(columns) == wanted ==> OrderedColumns(columns, inputs)
  }

  lemma OneKey(first: string, second: string, inputs: nat, wanted: set<Column>)
    requires SetOrdered(wanted, inputs) && KeyOf(first, inputs, wanted) && KeyOf(second, inputs, wanted)
    ensures first == second
  {
    var gates, record, outputs, sub :|
      && IsRecord(record, inputs, gates) && |outputs| == |wanted|
      && Describes(sub, record, inputs, gates, outputs) && sub.searchKey == first
      && ColumnSet(OutputColumns(record, outputs)) == wanted;
    var gates', record', outputs', sub' :|
      && IsRecord(record', inputs, gates') && |outputs'| == |wanted|
      && Describes(sub', record', inputs, gates', outputs') && sub'.searchKey == second
      && ColumnSet(OutputColumns(record', outputs')) == wanted;
    SameKeySameFunctions(sub, record, gates, outputs, sub', record', gates', outputs', inputs);
  }

  /** Functions that are 0 in every 32nd row are ordered; up to 4 inputs all functions are. */
  lemma ClearRowsAreOrdered(wanted: set<Column>, inputs: nat)
    requires inputs <= 4 || forall c :: c in wanted ==> TopRowsClear(c)
    ensures SetOrdered(wanted, inputs)
  {
    forall columns: seq<Column> | IsColumns(columns, inputs) && ColumnSet(columns) == wanted
      ensures OrderedColumns(columns, inputs)
    {
      TablesAreFamily(columns, inputs);
      forall i | 0 <= i < |columns|
        ensures IsTable(Tables(columns)[i], WordCount(inputs)) && Small(Tables(columns)[i])
      {
        TableIsTable(columns[i], inputs);
        assert columns[i] in ColumnSet(columns);
        SmallIsTopClear(columns[i]);
      }
      SmallIsOrdered(columns, inputs);
    }
  }
}
