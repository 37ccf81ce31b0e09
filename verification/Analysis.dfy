/** What Analyze in backend/parser.php makes of a truth table: trivial outputs, discarded
    variables, aliases, the compressed table, and how every output of the original table is
    found again in it. */
module Analysis {
  import opened Bits
  import opened Networks
  import opened Extraction
  import opened TableRows
  import opened Comparator
  import opened Wrappers

  /** A row is the set of the outputs that are 1 in it. */
  type TruthTable = seq<set<nat>>

  /** An entry of `output_mapping`: "0" or "1", "i3", or "o3". */
  datatype Target = Fixed(value: bool) | Copied(m: nat) | Computed(o: nat)

  // ---- Steps 1 and 2: outputs that need no gates ----

  /** The first input from `m` on that the column copies. */
  ghost function FirstCopy(c: Column, m: nat, inputs: nat): Option<nat>
    decreases inputs - m
  {
    if m >= inputs then None else if CopyOf(c, m) then Some(m) else FirstCopy(c, m + 1, inputs)
  }

  ghost function TrivialTarget(c: Column, inputs: nat): Option<Target> {
    var copy := FirstCopy(c, 0, inputs);
    if copy.Some? then Some(Copied(copy.value)) else if Constant(c) then Some(Fixed(c != [] && c[0])) else None
  }

  ghost function TrivialTargets(table: TruthTable, inputs: nat, outputs: nat): map<nat, Target> {
    map n: nat | n < outputs && TrivialTarget(MaskColumn(table, n), inputs).Some? :: TrivialTarget(MaskColumn(table, n), inputs).value
  }

  lemma {:induction false} FirstCopyIsExact(c: Column, m: nat, inputs: nat)
    ensures var copy := FirstCopy(c, m, inputs);
      && (copy.Some? ==> copy.value < inputs && CopyOf(c, copy.value))
      && (copy.None? ==> forall k :: m <= k < inputs ==> !CopyOf(c, k))
    decreases inputs - m
  {
    if m < inputs {
      FirstCopyIsExact(c, m + 1, inputs);
    }
  }

  /** An output is trivial exactly if it is constant or copies an input, and then its target
      gives its value. */
  lemma TrivialTargetIsExact(c: Column, inputs: nat)
    requires |c| == Pow2(inputs)
    ensures TrivialTarget(c, inputs).None? <==> Proper(c, inputs)
    ensures TrivialTarget(c, inputs).Some? ==> !TrivialTarget(c, inputs).value.Computed?
    ensures TrivialTarget(c, inputs).Some? ==>
      forall t :: 0 <= t < |c| ==> c[t] == TargetValue(TrivialTarget(c, inputs).value, t, {})
  {
    FirstCopyIsExact(c, 0, inputs);
  }

  /** The value of a target in row `t`, given the row of the compressed table. */
  function TargetValue(target: Target, t: nat, row: set<nat>): bool {
    match target
    case Fixed(value) => value
    case Copied(m) => Bit(t, m)
    case Computed(o) => o in row
  }

  // ---- Step 3: variables that no remaining output depends on ----

  ghost predicate Unread(table: TruthTable, outputs: nat, trivial: set<nat>, m: nat) {
    forall n :: 0 <= n < outputs && n !in trivial ==> !DependsOn(MaskColumn(table, n), m)
  }

  ghost function Discarded(table: TruthTable, inputs: nat, outputs: nat, trivial: set<nat>): set<nat> {
    set m | 0 <= m < inputs && Unread(table, outputs, trivial, m)
  }

  /** Variables that can be dropped one by one can be dropped together. */
  lemma {:induction false} DropTogether(c: Column, inputs: nat, off: set<nat>, t: nat)
    requires |c| == Pow2(inputs) && t < |c| && forall m :: m in off ==> !DependsOn(c, m)
    ensures Cleared(t, inputs, off) < |c| && c[t] == c[Cleared(t, inputs, off)]
    decreases t
  {
    ClearedBits(t, inputs, off, 0);
    if m :| m in off && Bit(t, m) {
      var u := t - Pow2(m);
      forall k
        ensures t >= Pow2(m) && Bit(u, k) == (k != m && Bit(t, k))
      {
        TakeBit(t, m, k);
      }
      KeptBitsDecide(t, u, inputs, off);
      DropTogether(c, inputs, off, u);
      assert u + Pow2(m) < |c| && !Bit(u, m);
    } else {
      NothingToClear(t, inputs, off);
    }
  }

  // ---- The new numbers of the outputs ----

  /** The numbers below `n`, each once. */
  ghost predicate Permutes(order: seq<nat>, n: nat) {
    && |order| == n && (forall i :: 0 <= i < n ==> order[i] < n)
    && (forall k :: 0 <= k < n ==> Has(order, k))
    && forall i, j :: 0 <= i < j < n ==> order[i] != order[j]
  }

  ghost predicate Has(order: seq<nat>, k: nat) {
    k in order
  }

  /** usort has put the outputs in order; where it found two alike, the later one became an
      alias of the earlier one. Neighbours have certainly been compared. */
  ghost predicate SortOutcome(order: seq<nat>, alias: map<nat, nat>, words: seq<Rendered>, n: nat) {
    && Permutes(order, |words|)
    && (forall i, j :: 0 <= i < j < |order| ==> CompareWords(words[order[i]], words[order[j]], n) <= 0)
    && (forall a :: a in alias ==> AliasFits(a, alias[a], words, n))
    && (forall i :: 0 <= i < |order| - 1 ==> NeighboursSeen(order, alias, words, n, i))
  }

  ghost predicate AliasFits(a: nat, b: nat, words: seq<Rendered>, n: nat) {
    b < a < |words| && CompareWords(words[b], words[a], n) == 0
  }

  ghost predicate NeighboursSeen(order: seq<nat>, alias: map<nat, nat>, words: seq<Rendered>, n: nat, i: nat)
    requires i + 1 < |order| && order[i] < |words| && order[i + 1] < |words|
  {
    CompareWords(words[order[i]], words[order[i + 1]], n) == 0 ==> Later(order[i], order[i + 1]) in alias
  }

  function Later(a: nat, b: nat): nat {
    if a > b then a else b
  }

  function Earlier(a: nat, b: nat): nat {
    if a > b then b else a
  }

  /** The outputs that get a new number, in order. */
  function Selected(order: seq<nat>, skip: set<nat>): (chosen: seq<nat>)
    ensures forall n :: n in chosen <==> n in order && n !in skip
  {
    if order == [] then []
    else
      var rest := Selected(order[..|order| - 1], skip);
      var last := order[|order| - 1];
      assert order == order[..|order| - 1] + [last];
      if last in skip then rest else rest + [last]
  }

  /** The new number of output `n`. */
  function NumberOf(chosen: seq<nat>, n: nat): (o: nat)
    ensures n in chosen ==> o < |chosen| && chosen[o] == n
  {
    if chosen == [] then 0
    else if chosen[|chosen| - 1] == n then |chosen| - 1
    else NumberOf(chosen[..|chosen| - 1], n)
  }

  /** A row in terms of the new outputs. */
  function NewRow(row: set<nat>, chosen: seq<nat>): set<nat> {
    set o | 0 <= o < |chosen| && chosen[o] in row
  }

  /** `modified_truthtable` */
  function Modified(table: TruthTable, off: set<nat>, chosen: seq<nat>): (modified: TruthTable)
    ensures |modified| == |Rows(|table|, off, {})|
  {
    var rows := Rows(|table|, off, {});
    seq(|rows|, i requires 0 <= i < |rows| => if rows[i] < |table| then NewRow(table[rows[i]], chosen) else {})
  }

  ghost predicate AliasesDown(alias: map<nat, nat>) {
    forall a :: a in alias ==> alias[a] < a
  }

  /** `output_mapping` in the end */
  ghost function Resolved(trivial: map<nat, Target>, alias: map<nat, nat>, chosen: seq<nat>, n: nat): Target
    requires AliasesDown(alias)
    decreases n
  {
    if n in trivial then trivial[n]
    else if n in alias then Resolved(trivial, alias, chosen, alias[n])
    else Computed(NumberOf(chosen, n))
  }

  // ---- What the result means ----

  /** Everything Analyze computes, given how the sort went. */
  datatype Summary = Summary(off: set<nat>, modified: TruthTable, mapping: seq<Target>)

  ghost function RenderedWords(table: TruthTable, outputs: nat, off: set<nat>): (words: seq<Rendered>)
    ensures |words| == outputs
  {
    seq(outputs, n requires 0 <= n < outputs => Render(KeptColumn(table, n, off), off))
  }

  ghost function Analyzed(table: TruthTable, inputs: nat, outputs: nat, order: seq<nat>, alias: map<nat, nat>): Summary
    requires AliasesDown(alias)
  {
    var trivial := TrivialTargets(table, inputs, outputs);
    var off := Discarded(table, inputs, outputs, trivial.Keys);
    var chosen := Selected(order, trivial.Keys + alias.Keys);
    Summary(off, Modified(table, off, chosen),
           seq(outputs, n requires 0 <= n < outputs => Resolved(trivial, alias, chosen, n)))
  }

  /** Output `n` of row `t` is found again where `output_mapping` says. */
  ghost predicate FoundAgain(table: TruthTable, inputs: nat, r: Summary, n: nat, t: nat)
    requires t < |table| && n < |r.mapping|
  {
    && Position(t, inputs, r.off) < |r.modified|
    && (n in table[t]) == TargetValue(r.mapping[n], t, r.modified[Position(t, inputs, r.off)])
  }

  /** Every bit of the original table can be read off the result. */
  ghost predicate MeaningKept(table: TruthTable, inputs: nat, outputs: nat, r: Summary) {
    |r.mapping| == outputs && forall n, t :: 0 <= n < outputs && 0 <= t < |table| ==> FoundAgain(table, inputs, r, n, t)
  }

  /** In the compressed table an output is found at the position of the row. */
  lemma ComputedOutput(table: TruthTable, inputs: nat, off: set<nat>, chosen: seq<nat>, n: nat, t: nat)
    requires |table| == Pow2(inputs) && t < |table| && n in chosen
    requires forall m :: m in off ==> !DependsOn(MaskColumn(table, n), m)
    ensures var p, modified := Position(t, inputs, off), Modified(table, off, chosen);
      p < |modified| && ((NumberOf(chosen, n) in modified[p]) == (n in table[t]))
  {
    RowAtPosition(t, inputs, off);
    DropTogether(MaskColumn(table, n), inputs, off, t);
  }

  // ---- An alias of a meaningful output is a meaningful output with the same column ----

  ghost predicate Meaningful(c: Column, inputs: nat, off: set<nat>) {
    Proper(c, inputs) && forall m :: m in off ==> !DependsOn(c, m)
  }

  /** Columns equal on the kept rows, one of which does not depend on the others. */
  lemma SameKeptEverywhere(c: Column, d: Column, inputs: nat, off: set<nat>, t: nat)
    requires |c| == |d| == Pow2(inputs) && t < |c| && (forall m :: m in off ==> !DependsOn(c, m))
    requires SameKept(c, d, off)
    ensures Cleared(t, inputs, off) < |c| && c[t] == d[Cleared(t, inputs, off)]
  {
    DropTogether(c, inputs, off, t);
    ClearedIsPicked(t, inputs, off);
  }

  /** A meaningful output never looks like a trivial one on the kept rows. */
  lemma NoTrivialAlias(c: Column, d: Column, inputs: nat, off: set<nat>)
    requires |d| == Pow2(inputs) && Meaningful(c, inputs, off) && SameKept(c, d, off)
    ensures Proper(d, inputs)
  {
    if Constant(d) {
      forall t, u | 0 <= t < |c| && 0 <= u < |c|
        ensures c[t] == c[u]
      {
        SameKeptEverywhere(c, d, inputs, off, t);
        SameKeptEverywhere(c, d, inputs, off, u);
      }
      assert Constant(c);
      assert false;
    }
    forall m | 0 <= m < inputs
      ensures !CopyOf(d, m)
    {
      if CopyOf(d, m) {
        LooksLikeCopy(c, d, inputs, off, m);
        assert false;
      }
    }
  }

  /** It would copy the input itself, or be constant if the input is dropped. */
  lemma LooksLikeCopy(c: Column, d: Column, inputs: nat, off: set<nat>, m: nat)
    requires |c| == |d| == Pow2(inputs) && (forall k :: k in off ==> !DependsOn(c, k))
    requires SameKept(c, d, off) && m < inputs && CopyOf(d, m)
    ensures CopyOf(c, m) || Constant(c)
  {
    forall t | 0 <= t < |c|
      ensures c[t] == (m !in off && Bit(t, m))
    {
      SameKeptEverywhere(c, d, inputs, off, t);
      ClearedBits(t, inputs, off, m);
    }
  }

  lemma SameMeaningful(c: Column, d: Column, inputs: nat, off: set<nat>)
    requires |c| == |d| == Pow2(inputs) && (forall m :: m in off ==> !DependsOn(c, m) && !DependsOn(d, m))
    requires SameKept(c, d, off)
    ensures c == d
  {
    forall t | 0 <= t < |c|
      ensures c[t] == d[t]
    {
      SameKeptEverywhere(c, d, inputs, off, t);
      DropTogether(d, inputs, off, t);
    }
  }

  lemma KeptColumnsAgree(table: TruthTable, inputs: nat, off: set<nat>, a: nat, b: nat)
    requires |table| == Pow2(inputs) && TellsApart(inputs, off)
    requires Confused(KeptColumn(table, a, off), KeptColumn(table, b, off), inputs, off)
    ensures SameKept(MaskColumn(table, a), MaskColumn(table, b), off)
  {
    assert SameKept(KeptColumn(table, a, off), KeptColumn(table, b, off), off);
    forall t | 0 <= t < |table| && Picked(t, off, {})
      ensures MaskColumn(table, a)[t] == MaskColumn(table, b)[t]
    {
      assert KeptColumn(table, a, off)[t] == KeptColumn(table, b, off)[t];
    }
  }

  /** What is known about the aliases after a sort that tells columns apart. */
  lemma AliasIsSame(table: TruthTable, inputs: nat, outputs: nat, order: seq<nat>, alias: map<nat, nat>, n: nat)
    requires |table| == Pow2(inputs)
    requires var trivial := TrivialTargets(table, inputs, outputs).Keys; var off := Discarded(table, inputs, outputs, trivial);
      && TellsApart(inputs, off) && n < outputs && n !in trivial && n in alias
      && SortOutcome(order, alias, RenderedWords(table, outputs, off), |UsedWords(Pow2(inputs), off)|)
    ensures alias[n] < n && alias[n] !in TrivialTargets(table, inputs, outputs)
    ensures MaskColumn(table, alias[n]) == MaskColumn(table, n)
  {
    var trivial := TrivialTargets(table, inputs, outputs).Keys;
    var off := Discarded(table, inputs, outputs, trivial);
    var words, count := RenderedWords(table, outputs, off), |UsedWords(Pow2(inputs), off)|;
    assert AliasFits(n, alias[n], words, count);
    SameAsAlias(table, inputs, outputs, off, n, alias[n]);
  }

  lemma SameAsAlias(table: TruthTable, inputs: nat, outputs: nat, off: set<nat>, n: nat, b: nat)
    requires |table| == Pow2(inputs) && TellsApart(inputs, off) && b < n < outputs
    requires off == Discarded(table, inputs, outputs, TrivialTargets(table, inputs, outputs).Keys)
    requires n !in TrivialTargets(table, inputs, outputs)
    requires Confused(KeptColumn(table, b, off), KeptColumn(table, n, off), inputs, off)
    ensures b !in TrivialTargets(table, inputs, outputs)
    ensures MaskColumn(table, b) == MaskColumn(table, n)
  {
    var c, d := MaskColumn(table, n), MaskColumn(table, b);
    KeptColumnsAgree(table, inputs, off, b, n);
    TrivialTargetIsExact(c, inputs);
    TrivialTargetIsExact(d, inputs);
    assert forall m :: m in off ==> !DependsOn(c, m);
    NoTrivialAlias(c, d, inputs, off);
    assert forall m :: m in off ==> !DependsOn(d, m);
    SameMeaningful(c, d, inputs, off);
  }

  // ---- Analyze keeps the meaning of the table ----

  /** A table, and a way in which sorting its outputs may go. */
  ghost predicate Outcome(table: TruthTable, inputs: nat, outputs: nat, order: seq<nat>, alias: map<nat, nat>,
                          off: set<nat>)
  {
    && |table| == Pow2(inputs)
    && off == Discarded(table, inputs, outputs, TrivialTargets(table, inputs, outputs).Keys)
    && SortOutcome(order, alias, RenderedWords(table, outputs, off), |UsedWords(Pow2(inputs), off)|)
  }

  lemma OutcomeAliasesDown(table: TruthTable, inputs: nat, outputs: nat, order: seq<nat>, alias: map<nat, nat>,
                           off: set<nat>)
    requires Outcome(table, inputs, outputs, order, alias, off)
    ensures AliasesDown(alias)
  {
    var words, count := RenderedWords(table, outputs, off), |UsedWords(Pow2(inputs), off)|;
    forall a | a in alias
      ensures alias[a] < a
    {
      assert AliasFits(a, alias[a], words, count);
    }
  }

  lemma {:induction false} OutputFoundAgain(table: TruthTable, inputs: nat, outputs: nat, order: seq<nat>,
                                            alias: map<nat, nat>,
                                            off: set<nat>, n: nat, t: nat)
    requires Outcome(table, inputs, outputs, order, alias, off) && AliasesDown(alias)
    requires TellsApart(inputs, off) && n < outputs && t < |table|
    ensures FoundAgain(table, inputs, Analyzed(table, inputs, outputs, order, alias), n, t)
    decreases n
  {
    var trivial := TrivialTargets(table, inputs, outputs);
    if n !in trivial && n in alias {
      AliasIsSame(table, inputs, outputs, order, alias, n);
      OutputFoundAgain(table, inputs, outputs, order, alias, off, alias[n], t);
      assert MaskColumn(table, alias[n])[t] == MaskColumn(table, n)[t];
    } else {
      assert Has(order, n);
      OwnTarget(table, inputs, outputs, order, alias, off, n, t);
    }
  }

  /** Exactly the outputs with a proper column get a number of the compressed table. */
  lemma {:induction false} ComputedIffProper(table: TruthTable, inputs: nat, outputs: nat, order: seq<nat>,
                                             alias: map<nat, nat>, off: set<nat>, n: nat)
    requires Outcome(table, inputs, outputs, order, alias, off) && AliasesDown(alias)
    requires !Gap(inputs, off) && n < outputs
    ensures Analyzed(table, inputs, outputs, order, alias).mapping[n].Computed? <==> Proper(MaskColumn(table, n), inputs)
    decreases n
  {
    var trivial := TrivialTargets(table, inputs, outputs);
    TrivialTargetIsExact(MaskColumn(table, n), inputs);
    if n !in trivial && n in alias {
      NoGapTellsApart(inputs, off);
      AliasIsSame(table, inputs, outputs, order, alias, n);
      ComputedIffProper(table, inputs, outputs, order, alias, off, alias[n]);
    }
  }

  /** A trivial output, and one with a new number of its own. */
  lemma OwnTarget(table: TruthTable, inputs: nat, outputs: nat, order: seq<nat>, alias: map<nat, nat>, off: set<nat>,
                  n: nat, t: nat)
    requires |table| == Pow2(inputs) && AliasesDown(alias) && n < outputs && t < |table| && n in order
    requires off == Discarded(table, inputs, outputs, TrivialTargets(table, inputs, outputs).Keys)
    requires n in TrivialTargets(table, inputs, outputs) || n !in alias
    ensures FoundAgain(table, inputs, Analyzed(table, inputs, outputs, order, alias), n, t)
  {
    var trivial := TrivialTargets(table, inputs, outputs);
    RowAtPosition(t, inputs, off);
    if n in trivial {
      TrivialTargetIsExact(MaskColumn(table, n), inputs);
      assert (n in table[t]) == MaskColumn(table, n)[t];
    } else {
      assert forall m :: m in off ==> !DependsOn(MaskColumn(table, n), m);
      ComputedOutput(table, inputs, off, Selected(order, trivial.Keys + alias.Keys), n, t);
    }
  }

  /** Analyze preserves the meaning: whatever the sort does, every bit of the table is found
      again, if no kept variable lies above a discarded one from variable 5 on. */
  lemma AnalyzeKeepsMeaning(table: TruthTable, inputs: nat, outputs: nat, order: seq<nat>, alias: map<nat, nat>,
                            off: set<nat>)
    requires Outcome(table, inputs, outputs, order, alias, off) && !Gap(inputs, off)
    ensures AliasesDown(alias)
    ensures MeaningKept(table, inputs, outputs, Analyzed(table, inputs, outputs, order, alias))
  {
    OutcomeAliasesDown(table, inputs, outputs, order, alias, off);
    NoGapTellsApart(inputs, off);
    forall n, t | 0 <= n < outputs && 0 <= t < |table|
      ensures FoundAgain(table, inputs, Analyzed(table, inputs, outputs, order, alias), n, t)
    {
      OutputFoundAgain(table, inputs, outputs, order, alias, off, n, t);
    }
  }

  /** For these discarded variables, Analyze is right about all tables. */
  ghost predicate AlwaysRight(inputs: nat, off: set<nat>) {
    forall table, outputs, order, alias :: Outcome(table, inputs, outputs, order, alias, off) ==>
      AliasesDown(alias) && MeaningKept(table, inputs, outputs, Analyzed(table, inputs, outputs, order, alias))
  }

  // ---- What goes wrong with a gap ----

  /** Output 1 is 1 where all kept variables are 0; output 0 also in one row that the
      comparison never looks at. */
  function Trap(inputs: nat, off: set<nat>, unseen: nat): (table: TruthTable)
    ensures |table| == Pow2(inputs)
  {
    seq(Pow2(inputs), t requires 0 <= t => TrapRow(Cleared(t, inputs, off), unseen))
  }

  function TrapRow(kept: nat, unseen: nat): set<nat> {
    if kept == 0 then {0, 1} else if kept == unseen then {0} else {}
  }

  lemma TrapIgnores(inputs: nat, off: set<nat>, unseen: nat, n: nat, m: nat)
    requires m in off
    ensures !DependsOn(MaskColumn(Trap(inputs, off, unseen), n), m)
  {
    var table := Trap(inputs, off, unseen);
    forall t | 0 <= t && t + Pow2(m) < |table| && !Bit(t, m)
      ensures table[t] == table[t + Pow2(m)]
    {
      forall k | 0 <= k < inputs && k !in off
        ensures Bit(t, k) == Bit(t + Pow2(m), k)
      {
        SetClearBit(t, m, k);
      }
      KeptBitsDecide(t, t + Pow2(m), inputs, off);
    }
  }

  lemma {:induction false} ZeroBits(m: nat, off: set<nat>)
    ensures Cleared(0, m, off) == 0
  {
    if m > 0 {
      ZeroBits(m - 1, off);
      HighBitClear(0, m - 1);
    }
  }

  lemma KeptRow(inputs: nat, off: set<nat>, t: nat)
    requires t < Pow2(inputs) && Picked(t, off, {})
    ensures Cleared(t, inputs, off) == t
  {
    NothingToClear(t, inputs, off);
  }

  /** Output 1 depends on every kept variable. */
  lemma TrapReads(inputs: nat, off: set<nat>, unseen: nat, m: nat)
    requires m < inputs && m !in off && 0 < unseen
    ensures DependsOn(MaskColumn(Trap(inputs, off, unseen), 1), m)
  {
    SingleBit(m, off);
    Pow2Monotone(m + 1, inputs);
    KeptRow(inputs, off, Pow2(m));
    ZeroBits(inputs, off);
    HighBitClear(0, m);
    var c := MaskColumn(Trap(inputs, off, unseen), 1);
    assert c[0] && !c[0 + Pow2(m)];
  }

  lemma TrapIsProper(inputs: nat, off: set<nat>, unseen: nat, m: nat)
    requires m < inputs && m !in off && 0 < unseen
    ensures Proper(MaskColumn(Trap(inputs, off, unseen), 1), inputs)
  {
    TrapReads(inputs, off, unseen, m);
    var c := MaskColumn(Trap(inputs, off, unseen), 1);
    ZeroBits(inputs, off);
    assert c[0];
    forall k | 0 <= k < inputs
      ensures !CopyOf(c, k)
    {
      HighBitClear(0, k);
    }
  }

  lemma TrapDiscards(inputs: nat, off: set<nat>, unseen: nat)
    requires 0 < unseen && off <= Below(inputs) && off != Below(inputs)
    ensures var table := Trap(inputs, off, unseen); var trivial := TrivialTargets(table, inputs, 2);
      1 !in trivial && Discarded(table, inputs, 2, trivial.Keys) == off
  {
    var table := Trap(inputs, off, unseen);
    var trivial := TrivialTargets(table, inputs, 2);
    var m :| m in Below(inputs) && m !in off;
    TrapIsProper(inputs, off, unseen, m);
    TrivialTargetIsExact(MaskColumn(table, 1), inputs);
    forall k | 0 <= k < inputs
      ensures k in off <==> Unread(table, 2, trivial.Keys, k)
    {
      if k in off {
        TrapIgnores(inputs, off, unseen, 0, k);
        TrapIgnores(inputs, off, unseen, 1, k);
      } else {
        TrapReads(inputs, off, unseen, k);
      }
    }
  }

  /** The two outputs compare equal, so the sort makes output 1 an alias of output 0. */
  lemma TrapAliases(inputs: nat, off: set<nat>, unseen: nat)
    requires 0 < unseen < Pow2(inputs) && off <= Below(inputs) && off != Below(inputs)
    requires Picked(unseen, off, {}) && unseen / 32 >= |UsedWords(Pow2(inputs), off)|
    ensures Outcome(Trap(inputs, off, unseen), inputs, 2, [0, 1], map[1 := 0], off)
  {
    var table := Trap(inputs, off, unseen);
    TrapDiscards(inputs, off, unseen);
    var c, d := KeptColumn(table, 0, off), KeptColumn(table, 1, off);
    forall t | 0 <= t < |c| && t != unseen
      ensures c[t] == d[t]
    {
      if Picked(t, off, {}) {
        KeptRow(inputs, off, t);
      }
    }
    UnseenDifference(c, d, inputs, off, unseen);
    SortedTrap(RenderedWords(table, 2, off), |UsedWords(Pow2(inputs), off)|);
  }

  lemma SortedTrap(words: seq<Rendered>, n: nat)
    requires |words| == 2 && CompareWords(words[0], words[1], n) == 0
    ensures SortOutcome([0, 1], map[1 := 0], words, n)
  {
    var order, alias := [0, 1], map[1 := 0];
    assert order[0] == 0 && order[1] == 1;
    assert AliasFits(1, 0, words, n);
    assert NeighboursSeen(order, alias, words, n, 0);
  }

  /** Output 1 is then read from output 0, which is wrong in the row that was not compared. */
  lemma TrapLosesMeaning(inputs: nat, off: set<nat>, unseen: nat)
    requires 0 < unseen < Pow2(inputs) && off <= Below(inputs) && off != Below(inputs)
    requires Picked(unseen, off, {}) && unseen / 32 >= |UsedWords(Pow2(inputs), off)|
    ensures !MeaningKept(Trap(inputs, off, unseen), inputs, 2,
                         Analyzed(Trap(inputs, off, unseen), inputs, 2, [0, 1], map[1 := 0]))
  {
    var table, alias := Trap(inputs, off, unseen), map[1 := 0];
    TrapDiscards(inputs, off, unseen);
    var r := Analyzed(table, inputs, 2, [0, 1], alias);
    KeptRow(inputs, off, unseen);
    assert table[unseen] == {0};
    assert r.mapping[1] == r.mapping[0];
    if FoundAgain(table, inputs, r, 0, unseen) {
      assert !FoundAgain(table, inputs, r, 1, unseen);
    }
  }

  /** For given discarded variables, Analyze is right about all tables exactly if there is no
      gap among them. */
  lemma AnalyzeIsExact(inputs: nat, off: set<nat>)
    requires off <= Below(inputs)
    ensures AlwaysRight(inputs, off) <==> !Gap(inputs, off)
  {
    if Gap(inputs, off) {
      var unseen := UnseenRow(inputs, off);
      assert off != Below(inputs);
      TrapAliases(inputs, off, unseen);
      TrapLosesMeaning(inputs, off, unseen);
    } else {
      forall table, outputs, order, alias | Outcome(table, inputs, outputs, order, alias, off)
        ensures AliasesDown(alias) && MeaningKept(table, inputs, outputs, Analyzed(table, inputs, outputs, order, alias))
      {
        AnalyzeKeepsMeaning(table, inputs, outputs, order, alias, off);
      }
    }
  }

  /** Up to 6 variables there is never a gap. */
  lemma SixVariablesAreSafe(table: TruthTable, inputs: nat, outputs: nat, order: seq<nat>, alias: map<nat, nat>,
                            off: set<nat>)
    requires inputs <= 6 && Outcome(table, inputs, outputs, order, alias, off)
    ensures AliasesDown(alias)
    ensures MeaningKept(table, inputs, outputs, Analyzed(table, inputs, outputs, order, alias))
  {
    AnalyzeKeepsMeaning(table, inputs, outputs, order, alias, off);
  }

  /** With 7 variables it matters which one is discarded: number 5, below number 6, is a gap. */
  lemma SeventhVariableBreaks()
    ensures !AlwaysRight(7, {5})
  {
    AnalyzeIsExact(7, {5});
    assert Gap(7, {5}) by {
      assert 5 in {5} && 6 !in {5};
    }
  }
}
