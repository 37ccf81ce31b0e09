/** The generator of gatebuilder.cc: an odometer over `gate_inputs` that jumps over what it
    need not look at and writes a record for every network it accepts. */
module GateBuilder {
  import opened Bits
  import opened LexOrder
  import opened Networks
  import opened Renumbering
  import opened Odometer

  /** A record of the output file: the gate inputs, and per truth-table row the mask of the
      gates that output 1. A machine word used as a mask is the set of its 1 bits. */
  datatype Record = Record(gateInputs: seq<nat>, gateOutputs: seq<set<nat>>)

  /** The values of the four outer loops: the operands of the first two gates. */
  datatype Start = Start(first: nat, second: nat, third: nat, fourth: nat)

  ghost predicate InBounds(start: Start, inputs: nat) {
    start.first < inputs && start.second < inputs && start.third < inputs + 1 && start.fourth < inputs + 1
  }

  /** `schedule` lists every value of the outer loops once; the order is up to the threads. */
  ghost predicate Covers(schedule: seq<Start>, inputs: nat) {
    && (forall i :: 0 <= i < |schedule| ==> InBounds(schedule[i], inputs))
    && (forall i, j :: 0 <= i < j < |schedule| ==> schedule[i] != schedule[j])
    && (forall start: Start :: InBounds(start, inputs) ==> start in schedule)
  }

  /** Which parameter of `Increment` a step of the main loop leads to. */
  datatype Jump = Proceed | Inc(pos: nat) | IncWraps(pos: nat)

  function ShiftRight(mask: set<nat>, n: nat): set<nat> {
    set x | x in mask && x >= n :: x - n
  }

  lemma ShiftRightMember(mask: set<nat>, n: nat, b: nat)
    ensures b in ShiftRight(mask, n) <==> b + n in mask
  {
    if b + n in mask {
      var x := b + n;
      assert x - n == b;
    }
  }

  ghost function RowMask(net: Net, inputs: nat, row: nat): set<nat>
    requires Topological(net, inputs)
  {
    set g | g in Below(|net|) && Value(net, inputs, row, inputs + g)
  }

  ghost function RowMasks(net: Net, inputs: nat): (masks: seq<set<nat>>)
    requires Topological(net, inputs)
    ensures |masks| == Pow2(inputs)
    ensures forall row :: 0 <= row < |masks| ==> masks[row] == RowMask(net, inputs, row)
  {
    seq(Pow2(inputs), row requires 0 <= row => RowMask(net, inputs, row))
  }

  ghost function GateSequences(records: seq<Record>): (s: seq<seq<nat>>)
    ensures |s| == |records|
    ensures forall i :: 0 <= i < |s| ==> s[i] == records[i].gateInputs
  {
    seq(|records|, i requires 0 <= i < |records| => records[i].gateInputs)
  }

  /** Every record carries the truth table of its network. */
  ghost predicate FaithfulRecord(record: Record, inputs: nat, gates: nat) {
    && |record.gateInputs| == 2 * gates
    && Topological(NetOf(record.gateInputs), inputs)
    && record.gateOutputs == RowMasks(NetOf(record.gateInputs), inputs)
  }

  ghost predicate Faithful(records: seq<Record>, inputs: nat, gates: nat) {
    forall i :: 0 <= i < |records| ==> FaithfulRecord(records[i], inputs, gates)
  }

  /** The index of the lowest 1 bit. */
  method FindFirstBit(value: set<nat>) returns (first: nat)
    requires value != {}
    ensures first in value && forall x :: x in value ==> first <= x
  {
    first := 0;
    ghost var some :| some in value;
    while first !in value
      invariant forall x :: x in value ==> first <= x
      decreases some - first
    {
      first := first + 1;
    }
  }

  /** The sources below `n` that carry a 1. */
  ghost function Signals(net: Net, inputs: nat, row: nat, n: nat): set<nat>
    requires Topological(net, inputs) && n <= inputs + |net|
  {
    set x | x in Below(n) && Value(net, inputs, row, x)
  }

  lemma NextSignal(net: Net, inputs: nat, row: nat, n: nat)
    requires Topological(net, inputs) && n < |net|
    ensures net[n].a < inputs + n && net[n].b < inputs + n
    ensures Signals(net, inputs, row, inputs + n + 1) == Signals(net, inputs, row, inputs + n)
      + if net[n].a in Signals(net, inputs, row, inputs + n) && net[n].b in Signals(net, inputs, row, inputs + n)
        then {} else {inputs + n}
  {
    assert net[n].a < inputs + n && net[n].b < inputs + n;
  }

  lemma GateSignals(net: Net, inputs: nat, row: nat, state: set<nat>)
    requires Topological(net, inputs)
    requires state == ShiftRight(Signals(net, inputs, row, inputs + |net|), inputs)
    ensures state == RowMask(net, inputs, row)
  {
    forall g: nat
      ensures g in RowMask(net, inputs, row) <==> g in state
    {
      ShiftRightMember(Signals(net, inputs, row, inputs + |net|), inputs, g);
    }
  }

  ghost predicate Seen(c: Column, value: bool, rows: nat)
    requires rows <= |c|
  {
    exists r :: 0 <= r < rows && c[r] == value
  }

  ghost predicate SeenDiffering(c: Column, m: nat, rows: nat)
    requires rows <= |c|
  {
    exists r :: 0 <= r < rows && c[r] != Bit(r, m)
  }

  lemma ConstantSeen(c: Column)
    ensures Constant(c) <==> !Seen(c, true, |c|) || !Seen(c, false, |c|)
  {
    if Seen(c, true, |c|) && Seen(c, false, |c|) {
      var i :| 0 <= i < |c| && c[i];
      var j :| 0 <= j < |c| && !c[j];
      assert c[i] != c[j];
    }
  }

  lemma BeyondInputsSeen(c: Column, inputs: nat, m: nat)
    requires inputs <= m && |c| == Pow2(inputs) && !SeenDiffering(c, m, |c|)
    ensures Constant(c)
  {
    forall r | 0 <= r < |c|
      ensures !c[r]
    {
      Pow2Monotone(inputs, m);
      HighBitClear(r, m);
    }
  }

  /** What the accumulated masks say about gate `g` in the first `row` rows. */
  ghost predicate GateTally(c: Column, g: nat, row: nat, hasZero: set<nat>, hasOne: set<nat>,
                            hasDiffering: seq<set<nat>>)
    requires row <= |c|
  {
    && (g in hasOne <==> Seen(c, true, row))
    && (g in hasZero <==> Seen(c, false, row))
    && forall m: nat :: m < |hasDiffering| ==> (g in hasDiffering[m] <==> SeenDiffering(c, m, row))
  }

  ghost predicate Tally(net: Net, inputs: nat, row: nat, hasZero: set<nat>, hasOne: set<nat>,
                        hasDiffering: seq<set<nat>>)
    requires Topological(net, inputs) && row <= Pow2(inputs)
  {
    forall g: nat :: g < |net| ==> GateTally(GateColumn(net, inputs, g), g, row, hasZero, hasOne, hasDiffering)
  }

  lemma GateTallyStep(c: Column, g: nat, row: nat, allBits: set<nat>, state: set<nat>,
                      hasZero: set<nat>, hasOne: set<nat>, hasDiffering: seq<set<nat>>,
                      hasZero': set<nat>, hasOne': set<nat>, hasDiffering': seq<set<nat>>)
    requires row < |c| && GateTally(c, g, row, hasZero, hasOne, hasDiffering)
    requires g in allBits && (g in state <==> c[row])
    requires hasZero' == hasZero + (allBits - state) && hasOne' == hasOne + state
    requires |hasDiffering'| == |hasDiffering|
    requires forall m :: 0 <= m < |hasDiffering| ==>
      hasDiffering'[m] == hasDiffering[m] + (if Bit(row, m) then allBits - state else state)
    ensures GateTally(c, g, row + 1, hasZero', hasOne', hasDiffering')
  {
    SeenStep(c, true, row);
    SeenStep(c, false, row);
    forall m: nat | m < |hasDiffering|
      ensures g in hasDiffering'[m] <==> SeenDiffering(c, m, row + 1)
    {
      SeenDifferingStep(c, m, row);
    }
  }

  lemma SeenStep(c: Column, value: bool, rows: nat)
    requires rows < |c|
    ensures Seen(c, value, rows + 1) <==> Seen(c, value, rows) || c[rows] == value
  {
  }

  lemma SeenDifferingStep(c: Column, m: nat, rows: nat)
    requires rows < |c|
    ensures SeenDiffering(c, m, rows + 1) <==> SeenDiffering(c, m, rows) || c[rows] != Bit(rows, m)
  {
  }

  /** After the last row the masks tell constant gates and copies. Masks of inputs the
      network does not have behave like the mask of ones. */
  lemma TallyComplete(c: Column, g: nat, inputs: nat, hasZero: set<nat>, hasOne: set<nat>, hasDiffering: seq<set<nat>>)
    requires |c| == Pow2(inputs) && |hasDiffering| >= inputs
    requires GateTally(c, g, |c|, hasZero, hasOne, hasDiffering)
    ensures Constant(c) <==> g !in hasZero * hasOne
    ensures forall m: nat :: m < inputs ==> (CopyOf(c, m) <==> g !in hasDiffering[m])
    ensures forall m: nat :: inputs <= m < |hasDiffering| && g !in hasDiffering[m] ==> Constant(c)
  {
    ConstantSeen(c);
    forall m: nat | inputs <= m < |hasDiffering| && g !in hasDiffering[m]
      ensures Constant(c)
    {
      BeyondInputsSeen(c, inputs, m);
    }
  }

  ghost predicate Suspect(g: nat, hasZero: set<nat>, hasOne: set<nat>, hasDiffering: seq<set<nat>>) {
    g !in hasZero * hasOne || exists m :: 0 <= m < |hasDiffering| && g !in hasDiffering[m]
  }

  lemma Verdict(net: Net, inputs: nat, hasZero: set<nat>, hasOne: set<nat>, hasDiffering: seq<set<nat>>,
                allGateBits: set<nat>, badGates: set<nat>)
    requires Topological(net, inputs) && Tally(net, inputs, Pow2(inputs), hasZero, hasOne, hasDiffering)
    requires |hasDiffering| >= inputs && allGateBits == Below(|net|)
    requires forall g :: g in badGates * allGateBits ==> Suspect(g, hasZero, hasOne, hasDiffering)
    requires badGates * allGateBits == {} ==> forall g :: g in allGateBits ==> !Suspect(g, hasZero, hasOne, hasDiffering)
    ensures forall g: nat :: g in badGates * allGateBits ==> g < |net| && Trivial(net, inputs, g)
    ensures badGates * allGateBits == {} ==> forall g: nat :: g < |net| ==> !Trivial(net, inputs, g)
  {
    forall g: nat | g < |net|
      ensures Trivial(net, inputs, g) <==> Suspect(g, hasZero, hasOne, hasDiffering)
    {
      TallyComplete(GateColumn(net, inputs, g), g, inputs, hasZero, hasOne, hasDiffering);
    }
  }

  lemma CodeInjective(a: nat, b: nat, c: nat, d: nat, base: nat)
    requires a < base && c < base && a + Times(b, base) == c + Times(d, base)
    ensures a == c && b == d
  {
    if b < d {
      TimesMonotone(b, d, base);
    } else if d < b {
      TimesMonotone(d, b, base);
    }
  }

  /** From gate `n` on, the places after the prefix of four are 0. */
  ghost predicate ClearFrom(s: seq<nat>, n: nat) {
    forall p :: 4 <= p < |s| && p >= 2 * n ==> s[p] == 0
  }


  class Generator {
    const inputs: nat
    const gates: nat
    const wordBits: nat
    const maxInputs: nat
    const gateInputs: array<nat>
    var records: seq<Record>

    ghost predicate Valid() {
      && 1 <= inputs <= maxInputs && gates >= 1 && inputs + gates <= wordBits
      && gateInputs.Length >= 4 && gateInputs.Length >= 2 * gates
    }

    function RoundedInputs(): nat {
      (maxInputs + 7) / 8 * 8
    }

    ghost function Cur(): seq<nat>
      requires Valid()
      reads gateInputs
    {
      gateInputs[..2 * gates]
    }

    /** The gate sequences written since the file held `base` records. */
    ghost function Found(base: nat): seq<seq<nat>>
      requires base <= |records|
      reads this
    {
      GateSequences(records[base..])
    }

    constructor (inputs: nat, gates: nat, maxInputs: nat, wordBits: nat)
      requires 1 <= inputs <= maxInputs && gates >= 1 && inputs + gates <= wordBits
      ensures Valid() && fresh(gateInputs) && records == []
      ensures this.inputs == inputs && this.gates == gates
    {
      this.inputs, this.gates, this.maxInputs, this.wordBits := inputs, gates, maxInputs, wordBits;
      gateInputs := new nat[if gates < 2 then 4 else 2 * gates](_ => 0);
      records := [];
    }

    /** Evaluates the network on every row. Returns 0 and writes a record if no gate is
        constant or copies an input, otherwise one more than the number of such a gate. */
    method Catalogue() returns (redundant: nat)
      requires Valid() && InRange(Cur(), inputs) && Topological(NetOf(Cur()), inputs)
      modifies this`records
      ensures redundant == 0 ==>
        && records == old(records) + [Record(Cur(), RowMasks(NetOf(Cur()), inputs))]
        && forall g: nat :: g < gates ==> !Trivial(NetOf(Cur()), inputs, g)
      ensures redundant > 0 ==>
        records == old(records) && redundant <= gates && Trivial(NetOf(Cur()), inputs, redundant - 1)
    {
      ghost var net := NetOf(Cur());
      var allBits, allGateBits := Below(wordBits), Below(gates);
      var gateOutputs, hasZero, hasOne, hasDiffering := EvaluateRows(allBits);
      var badGates := BadGates(hasZero, hasOne, hasDiffering, allBits, allGateBits);
      Verdict(net, inputs, hasZero, hasOne, hasDiffering, allGateBits, badGates);
      if badGates * allGateBits != {} {
        ghost var bad :| bad in badGates * allGateBits;
        var first := FindFirstBit(badGates);
        assert first in badGates * allGateBits;
        return first + 1;
      }
      records := records + [Record(gateInputs[..2 * gates], gateOutputs)];
      return 0;
    }

    /** All rows, with the masks of gates seen 0, seen 1, and seen to differ from each input. */
    method EvaluateRows(allBits: set<nat>)
      returns (gateOutputs: seq<set<nat>>, hasZero: set<nat>, hasOne: set<nat>, hasDiffering: seq<set<nat>>)
      requires Valid() && Topological(NetOf(Cur()), inputs) && allBits == Below(wordBits)
      ensures gateOutputs == RowMasks(NetOf(Cur()), inputs) && |hasDiffering| == RoundedInputs()
      ensures Tally(NetOf(Cur()), inputs, Pow2(inputs), hasZero, hasOne, hasDiffering)
    {
      ghost var net := NetOf(Cur());
      gateOutputs := [];
      hasZero, hasOne := {}, {};
      hasDiffering := seq(RoundedInputs(), _ => {});
      var row := 0;
      while row < Pow2(inputs)
        invariant row <= Pow2(inputs) && |hasDiffering| == RoundedInputs()
        invariant gateOutputs == RowMasks(net, inputs)[..row]
        invariant Tally(net, inputs, row, hasZero, hasOne, hasDiffering)
      {
        var state := EvaluateRow(row);
        gateOutputs := gateOutputs + [state];
        ghost var z, o, d := hasZero, hasOne, hasDiffering;
        hasOne := hasOne + state;
        hasZero := hasZero + (allBits - state);
        hasDiffering := seq(RoundedInputs(), m requires 0 <= m < RoundedInputs() =>
          hasDiffering[m] + (if Bit(row, m) then allBits - state else state));
        forall g: nat | g < gates
          ensures GateTally(GateColumn(net, inputs, g), g, row + 1, hasZero, hasOne, hasDiffering)
        {
          GateTallyStep(GateColumn(net, inputs, g), g, row, allBits, state, z, o, d, hasZero, hasOne, hasDiffering);
        }
        row := row + 1;
      }
    }

    /** The copy test is only made when no gate is constant. */
    method BadGates(hasZero: set<nat>, hasOne: set<nat>, hasDiffering: seq<set<nat>>,
                    allBits: set<nat>, allGateBits: set<nat>) returns (badGates: set<nat>)
      requires allGateBits <= allBits && |hasDiffering| == RoundedInputs()
      ensures forall g :: g in badGates * allGateBits ==> Suspect(g, hasZero, hasOne, hasDiffering)
      ensures badGates * allGateBits == {} ==> forall g :: g in allGateBits ==> !Suspect(g, hasZero, hasOne, hasDiffering)
    {
      badGates := allBits - hasZero * hasOne;
      if badGates * allGateBits == {} {
        assert forall g :: g in allGateBits && g !in hasZero * hasOne ==> g in badGates * allGateBits;
        var m := 0;
        while m < RoundedInputs()
          invariant m <= RoundedInputs()
          invariant forall g :: g in allGateBits ==>
            (g in badGates <==> exists k :: 0 <= k < m && g !in hasDiffering[k])
        {
          badGates := badGates + (allBits - hasDiffering[m]);
          m := m + 1;
        }
        assert forall g :: g in allGateBits && g in badGates ==> g in badGates * allGateBits;
      }
    }

    /** One row: starting from the input bits, each gate adds its bit above them. */
    method EvaluateRow(row: nat) returns (state: set<nat>)
      requires Valid() && Topological(NetOf(Cur()), inputs) && row < Pow2(inputs)
      ensures state == RowMask(NetOf(Cur()), inputs, row)
    {
      ghost var net := NetOf(Cur());
      var temp := set m | m in Below(inputs) && Bit(row, m);
      assert temp == Signals(net, inputs, row, inputs);
      var n := 0;
      while n < gates
        invariant n <= gates && temp == Signals(net, inputs, row, inputs + n)
      {
        NextSignal(net, inputs, row, n);
        assert net[n] == Gate(gateInputs[2 * n], gateInputs[2 * n + 1]);
        var mask := gateInputs[2 * n] in temp && gateInputs[2 * n + 1] in temp;
        if !mask {
          temp := temp + {inputs + n};
        }
        n := n + 1;
      }
      state := ShiftRight(temp, inputs);
      GateSignals(net, inputs, row, state);
    }

    // ---- The odometer ----

    /** The rank of a state, the termination measure of the search. */
    ghost function Height(s: seq<nat>): nat
      requires |s| == 2 * gates
    {
      Rank(s, inputs + gates, 2 * gates)
    }

    ghost function Ceiling(): nat {
      Power(inputs + gates, 2 * gates)
    }

    /** The outer loops fix the first two gates. */
    function PrefixLength(): nat {
      if gates < 2 then 2 else 4
    }

    /** Everything the main loop relies on where it starts over. */
    ghost predicate Head(base: nat, prefix: seq<nat>)
      reads this, gateInputs
    {
      && Valid() && base <= |records| && |prefix| == PrefixLength()
      && Plausible(Cur(), inputs, gates, prefix) && Screened(Cur(), inputs)
      && FoundBelow(Found(base), inputs, gates, prefix, Cur())
    }

    /** `used` holds the pairs of the gates below `n`, numbered `a + b * sources`. */
    ghost predicate PairsUsed(used: set<nat>, cur: seq<nat>, n: nat)
      requires 2 * n <= |cur|
    {
      forall code: nat :: code in used <==> CodeTaken(cur, n, code)
    }

    ghost predicate CodeTaken(cur: seq<nat>, n: nat, code: nat)
      requires 2 * n <= |cur|
    {
      exists m :: 0 <= m < n && code == PairCode(cur[2 * m], cur[2 * m + 1])
    }

    lemma PairsUsedSame(used: set<nat>, cur: seq<nat>, next: seq<nat>, n: nat)
      requires 2 * n <= |cur| == |next| && EqualTo(cur, next, 2 * n) && PairsUsed(used, cur, n)
      ensures PairsUsed(used, next, n)
    {
      forall code: nat
        ensures CodeTaken(next, n, code) == CodeTaken(cur, n, code)
      {
      }
    }

    function PairCode(a: nat, b: nat): nat {
      a + Times(b, inputs + gates)
    }

    lemma PairCodeInjective(a: nat, b: nat, c: nat, d: nat)
      requires a < inputs + gates && c < inputs + gates && PairCode(a, b) == PairCode(c, d)
      ensures a == c && b == d
    {
      CodeInjective(a, b, c, d, inputs + gates);
    }

    lemma RepeatedPair(used: set<nat>, n: nat) returns (m: nat)
      requires Valid() && n < gates && InRange(Cur(), inputs) && PairsUsed(used, Cur(), n)
      requires PairCode(Cur()[2 * n], Cur()[2 * n + 1]) in used
      ensures m < n && NetOf(Cur())[m] == NetOf(Cur())[n]
    {
      assert CodeTaken(Cur(), n, PairCode(Cur()[2 * n], Cur()[2 * n + 1]));
      m :| 0 <= m < n && PairCode(Cur()[2 * n], Cur()[2 * n + 1]) == PairCode(Cur()[2 * m], Cur()[2 * m + 1]);
      assert Cur()[2 * m] < inputs + m && Cur()[2 * n] < inputs + n;
      PairCodeInjective(Cur()[2 * n], Cur()[2 * n + 1], Cur()[2 * m], Cur()[2 * m + 1]);
    }

    lemma FreshPairIsDistinct(used: set<nat>, n: nat)
      requires Valid() && n < gates && InRange(Cur(), inputs) && PairsUsed(used, Cur(), n)
      requires PairCode(Cur()[2 * n], Cur()[2 * n + 1]) !in used
      ensures forall m :: 0 <= m < n ==> NetOf(Cur())[m] != NetOf(Cur())[n]
      ensures PairsUsed(used + {PairCode(Cur()[2 * n], Cur()[2 * n + 1])}, Cur(), n + 1)
    {
      var code := PairCode(Cur()[2 * n], Cur()[2 * n + 1]);
      forall m | 0 <= m < n
        ensures NetOf(Cur())[m] != NetOf(Cur())[n]
      {
        assert CodeTaken(Cur(), n, PairCode(Cur()[2 * m], Cur()[2 * m + 1]));
      }
      forall c: nat
        ensures CodeTaken(Cur(), n + 1, c) <==> CodeTaken(Cur(), n, c) || c == code
      {
        if c == code {
          assert Cur()[2 * n] == Cur()[2 * n];
        }
      }
    }

    /** Does any pair occur twice? If so, `n` is the first gate that repeats one. */
    method FindDuplicate() returns (found: bool, ghost m: nat, ghost n: nat)
      requires Valid() && InRange(Cur(), inputs)
      ensures found ==> m < n < gates && NetOf(Cur())[m] == NetOf(Cur())[n]
      ensures !found ==> DistinctPairs(NetOf(Cur()))
    {
      ghost var net := NetOf(Cur());
      var used: set<nat> := {};
      var k := 0;
      while k < gates
        invariant k <= gates
        invariant PairsUsed(used, Cur(), k)
        invariant forall i, j :: 0 <= i < j < k ==> net[i] != net[j]
      {
        var code := PairCode(gateInputs[2 * k], gateInputs[2 * k + 1]);
        if code in used {
          m := RepeatedPair(used, k);
          return true, m, k;
        }
        FreshPairIsDistinct(used, k);
        used := used + {code};
        k := k + 1;
      }
      return false, 0, 0;
    }

    /** Returns the first gate that inverts an inverter, 0 if there is none. */
    method FindNotNot() returns (n: nat)
      requires Valid() && InRange(Cur(), inputs) && Topological(NetOf(Cur()), inputs)
      ensures n > 0 ==> n < gates && NotNot(NetOf(Cur()), inputs, n)
      ensures n == 0 ==> forall k: nat :: k < gates ==> !NotNot(NetOf(Cur()), inputs, k)
    {
      ghost var net := NetOf(Cur());
      assert net[0].a < inputs;
      n := 1;
      while n < gates
        invariant 1 <= n <= gates
        invariant forall k: nat :: k < n ==> !NotNot(net, inputs, k)
      {
        var b1, b2 := gateInputs[2 * n], gateInputs[2 * n + 1];
        assert net[n].a < inputs + n;
        if b1 == b2 && b1 >= inputs {
          var m := b1 - inputs;
          var a1, a2 := gateInputs[2 * m], gateInputs[2 * m + 1];
          if a1 == a2 {
            return;
          }
        }
        n := n + 1;
      }
      n := 0;
    }

    /** Is there a gate out of order, or one that could have come earlier? */
    method CheckOrder() returns (jump: Jump)
      requires Valid() && InRange(Cur(), inputs) && gateInputs[0] <= gateInputs[1]
      ensures jump == Proceed ==> Canonical(NetOf(Cur()), inputs)
      ensures jump.Inc? ==> jump.pos < 2 * gates
      ensures jump.Inc? ==>
        forall s :: Acceptable(s, inputs, gates) ==> !EqualTo(s, Cur(), jump.pos + 1)
      ensures !jump.IncWraps?
    {
      ghost var net := NetOf(Cur());
      var n := 1;
      while n < gates
        invariant 1 <= n <= gates
        invariant forall k :: 0 <= k < n ==> net[k].a <= net[k].b
        invariant forall i: nat, j: nat :: i < j < n ==> !SwapsBefore(net, inputs, i, j)
      {
        var b1, b2 := gateInputs[2 * n], gateInputs[2 * n + 1];
        if b1 > b2 {
          RejectUnordered(inputs, gates, Cur(), n);
          return Inc(2 * gates - 1);
        }
        var m := 0;
        while m < n
          invariant m <= n
          invariant forall i: nat :: i < m ==> !SwapsBefore(net, inputs, i, n)
        {
          var a1, a2 := gateInputs[2 * m], gateInputs[2 * m + 1];
          assert Cur()[2 * m] < inputs + m && Cur()[2 * m + 1] < inputs + m;
          if a1 > b1 || (a1 == b1 && a2 > b2) {
            var swapOk := true;
            if a1 >= inputs + n { swapOk := false; }
            if a2 >= inputs + n { swapOk := false; }
            if b1 >= inputs + m { swapOk := false; }
            if b2 >= inputs + m { swapOk := false; }
            if swapOk {
              assert SwapsBefore(net, inputs, m, n);
              RejectSwap(inputs, gates, Cur(), m, n);
              return Inc((if n > m then n else m) * 2 + 1);
            }
          }
          m := m + 1;
        }
        n := n + 1;
      }
      return Proceed;
    }

    method UnusedInputs() returns (unused: set<nat>)
      requires Valid()
      ensures forall i: nat :: i in unused <==> i < inputs && i !in Cur()
    {
      var used: set<nat> := {};
      var n := 0;
      while n < 2 * gates
        invariant n <= 2 * gates
        invariant forall i: nat :: i in used <==> i < inputs && i in Cur()[..n]
      {
        assert Cur()[..n + 1] == Cur()[..n] + [gateInputs[n]];
        if gateInputs[n] < inputs {
          used := used + {gateInputs[n]};
        }
        n := n + 1;
      }
      assert Cur()[..n] == Cur();
      unused := Below(inputs) - used;
    }

    /** Raises the last place to the next missing input above it, if there is one. */
    method RaiseToUnused(unused: set<nat>, ghost missing: nat, ghost base: nat, ghost prefix: seq<nat>)
      returns (raised: bool)
      requires Head(base, prefix) && gates >= 3
      requires missing in unused && forall i :: i in unused ==> i < inputs && i !in Cur()
      modifies gateInputs
      ensures Cur() == old(Cur())[2 * gates - 1 := gateInputs[2 * gates - 1]]
      ensures Cur()[2 * gates - 1] > old(Cur())[2 * gates - 1]
      ensures raised ==> Cur()[2 * gates - 1] in unused && FoundBelow(Found(base), inputs, gates, prefix, Cur())
      ensures !raised ==> FoundThrough(Found(base), inputs, gates, prefix, Cur(), 2 * gates - 1)
    {
      var pos := 2 * gates - 1;
      ghost var start := Cur();
      ghost var value := start[pos];
      RejectMissing(inputs, gates, start, missing);
      assert start == start[pos := value];
      while true
        invariant records == old(records) && value == gateInputs[pos] && start[pos] <= value
        invariant Cur() == start[pos := value]
        invariant FoundBelow(Found(base), inputs, gates, prefix, Cur())
        invariant forall s :: InScope(s, inputs, gates, prefix) ==> !EqualTo(s, Cur(), 2 * gates)
        decreases inputs + gates - gateInputs[pos]
      {
        StepLast(Found(base), inputs, gates, prefix, Cur());
        gateInputs[pos] := gateInputs[pos] + 1;
        value := value + 1;
        assert Cur() == start[pos := value];
        var input := gateInputs[pos];
        if input < inputs {
          if input in unused {
            return true;
          }
          RejectUnused(inputs, gates, start, missing, value);
        } else {
          JumpOverGateSources(Found(base), inputs, gates, prefix, Cur(), missing);
          return false;
        }
      }
    }

    /** While an input is missing, raises the last place to a missing input, or gives up on
        this setting of the places before it. */
    method SkipUnusedInputs(ghost base: nat, ghost prefix: seq<nat>) returns (jump: Jump)
      requires Head(base, prefix)
      modifies gateInputs
      ensures jump == Proceed ==> Head(base, prefix) && AllInputsRead(Cur(), inputs)
      ensures jump == Proceed ==> Height(old(Cur())) <= Height(Cur())
      ensures jump.Inc? ==> jump.pos == 2 * gates - 1 < 4 && Cur() == old(Cur())
      ensures jump.Inc? ==> FoundThrough(Found(base), inputs, gates, prefix, Cur(), 2 * gates)
      ensures jump.IncWraps? ==> jump.pos == 2 * gates - 1 >= 4 && EqualTo(old(Cur()), Cur(), 2 * gates - 1)
      ensures jump.IncWraps? ==> FoundThrough(Found(base), inputs, gates, prefix, Cur(), 2 * gates - 1)
    {
      var pos := 2 * gates - 1;
      while true
        invariant Head(base, prefix) && records == old(records)
        invariant EqualTo(old(Cur()), Cur(), pos) && old(Cur())[pos] <= Cur()[pos]
        invariant pos < 4 ==> Cur() == old(Cur())
        decreases inputs + gates - gateInputs[pos]
      {
        var unused := UnusedInputs();
        if unused == {} {
          LastPlaceRaised(old(Cur()), Cur(), inputs, gates);
          return Proceed;
        }
        ghost var missing :| missing in unused;
        if pos < 4 {
          RejectMissing(inputs, gates, Cur(), missing);
          JumpOverPrefix(Found(base), inputs, gates, prefix, Cur(), 2 * gates);
          return Inc(pos);
        }
        ghost var start := Cur();
        var raised := RaiseToUnused(unused, missing, base, prefix);
        if !raised {
          return IncWraps(pos);
        }
        FreshLastPlace(start, inputs, Cur()[pos]);
      }
    }

    method ClearAfter(pos: nat)
      requires Valid() && pos < 2 * gates
      modifies gateInputs
      ensures EqualTo(old(Cur()), Cur(), pos + 1)
    {
      var m := pos + 1;
      while m < 2 * gates
        invariant pos < m <= 2 * gates
        invariant EqualTo(old(Cur()), Cur(), pos + 1)
      {
        gateInputs[m] := 0;
        m := m + 1;
      }
    }

    /** Finds the place that can be incremented, and increments it. */
    method Carry(pos0: nat, wraps: bool, ghost base: nat, ghost prefix: seq<nat>)
      returns (more: bool, pos: nat, ghost before: seq<nat>)
      requires Valid() && base <= |records| && |prefix| == PrefixLength()
      requires Pending(Found(base), inputs, gates, prefix, Cur(), pos0, wraps)
      modifies gateInputs
      ensures !more ==> FoundAll(Found(base), inputs, gates, prefix)
      ensures more ==> 4 <= pos <= pos0 && (wraps ==> pos < pos0)
      ensures more ==> Pending(Found(base), inputs, gates, prefix, before, pos, false)
      ensures more ==> EqualTo(old(Cur()), before, pos + 1) && Cur() == before[pos := before[pos] + 1]
      ensures more ==> Cur()[pos] < inputs + pos / 2
    {
      hide FoundAll, Acceptable;
      pos := pos0;
      var wrapping := wraps;
      before := Cur();
      while true
        invariant pos <= pos0 && records == old(records) && before == Cur()
        invariant Pending(Found(base), inputs, gates, prefix, Cur(), pos, wrapping)
        invariant EqualTo(old(Cur()), Cur(), if wrapping then pos else pos + 1)
        invariant wraps ==> wrapping || pos < pos0
        decreases pos, !wrapping
      {
        if !wrapping {
          if pos < 4 {
            Finished(Found(base), inputs, gates, prefix, Cur(), pos + 1);
            return false, pos, before;
          }
          gateInputs[pos] := gateInputs[pos] + 1;
          if gateInputs[pos] < inputs + pos / 2 {
            return true, pos, before;
          }
          PendingWraps(Found(base), inputs, gates, prefix, before, Cur(), pos);
          wrapping := true;
        } else {
          if pos == 4 {
            Finished(Found(base), inputs, gates, prefix, Cur(), 4);
            return false, pos, before;
          }
          gateInputs[pos] := 0;
          PendingCarries(Found(base), inputs, gates, prefix, before, Cur(), pos);
          pos := pos - 1;
          wrapping := false;
        }
        before := Cur();
      }
    }

    /** Refills the places after `pos` with the least ordered pairs. */
    method Refill(pos: nat)
      requires Valid() && pos < 2 * gates
      requires forall p :: 0 <= p <= pos ==> gateInputs[p] < inputs + p / 2
      modifies gateInputs
      ensures InRange(Cur(), inputs) && EqualTo(old(Cur()), Cur(), pos + 1)
      ensures forall p :: pos < p < 2 * gates ==> LeastPlace(Cur(), p)
    {
      var last := pos;
      while last < 2 * gates - 1
        invariant pos <= last < 2 * gates && EqualTo(old(Cur()), Cur(), pos + 1)
        invariant forall p :: 0 <= p <= last ==> gateInputs[p] < inputs + p / 2
        invariant forall p :: pos < p <= last ==> LeastPlace(Cur(), p)
      {
        ghost var before := Cur();
        gateInputs[last + 1] := if (last + 1) % 2 == 1 then gateInputs[last] else 0;
        last := last + 1;
        forall p | pos < p <= last
          ensures LeastPlace(Cur(), p)
        {
          assert p < last ==> LeastPlace(before, p) && before[p - 1] == Cur()[p - 1];
        }
      }
    }

    /** One step of the odometer from a pending place, `last` being the state it became
        pending in. */
    method Advance(pos0: nat, wraps: bool, ghost last: seq<nat>, ghost base: nat, ghost prefix: seq<nat>)
      returns (more: bool)
      requires Valid() && base <= |records| && |prefix| == PrefixLength()
      requires Pending(Found(base), inputs, gates, prefix, Cur(), pos0, wraps)
      requires |last| == 2 * gates && InRange(last, inputs) && EqualTo(last, Cur(), if wraps then pos0 else pos0 + 1)
      modifies gateInputs
      ensures !more ==> FoundAll(Found(base), inputs, gates, prefix)
      ensures more ==> Plausible(Cur(), inputs, gates, prefix)
      ensures more ==> FoundBelow(Found(base), inputs, gates, prefix, Cur())
      ensures more ==> Height(last) < Height(Cur()) < Ceiling()
    {
      var pos;
      ghost var before, from := Cur(), Cur();
      more, pos, before := Carry(pos0, wraps, base, prefix);
      if more {
        Refill(pos);
        assert forall i :: 0 <= i < |prefix| ==> Cur()[i] == before[i] == prefix[i];
        assert Refilled(Cur(), before, pos);
        Advanced(Found(base), inputs, gates, prefix, before, pos, Cur());
        IncrementRises(last, from, before, Cur(), inputs, gates, pos, if wraps then pos0 else pos0 + 1);
      }
    }

    /** Steps on from a pending place until no pair repeats and no gate undoes an inverter. */
    method Increment(pos0: nat, wraps: bool, ghost top: seq<nat>, ghost base: nat, ghost prefix: seq<nat>)
      returns (more: bool)
      requires Valid() && base <= |records| && |prefix| == PrefixLength()
      requires Pending(Found(base), inputs, gates, prefix, Cur(), pos0, wraps)
      requires |top| == 2 * gates && InRange(top, inputs) && EqualTo(top, Cur(), if wraps then pos0 else pos0 + 1)
      modifies gateInputs
      ensures !more ==> FoundAll(Found(base), inputs, gates, prefix)
      ensures more ==> Head(base, prefix) && Height(top) < Height(Cur()) < Ceiling()
    {
      more := Advance(pos0, wraps, top, base, prefix);
      if !more {
        return false;
      }
      while true
        invariant records == old(records)
        invariant Plausible(Cur(), inputs, gates, prefix)
        invariant FoundBelow(Found(base), inputs, gates, prefix, Cur())
        invariant Height(top) < Height(Cur()) < Ceiling()
        decreases Ceiling() - Height(Cur())
      {
        ghost var last := Cur();
        var passed, pos := ScreenOrReject(base, prefix);
        if passed {
          return true;
        }
        more := Advance(pos, false, last, base, prefix);
        if !more {
          return false;
        }
      }
    }

    method ScreenOrReject(ghost base: nat, ghost prefix: seq<nat>) returns (passed: bool, pos: nat)
      requires Valid() && base <= |records| && |prefix| == PrefixLength()
      requires Plausible(Cur(), inputs, gates, prefix)
      requires FoundBelow(Found(base), inputs, gates, prefix, Cur())
      modifies gateInputs
      ensures passed ==> Cur() == old(Cur()) && Screened(Cur(), inputs)
      ensures !passed ==> pos < 2 * gates && EqualTo(old(Cur()), Cur(), pos + 1)
      ensures !passed ==> Pending(Found(base), inputs, gates, prefix, Cur(), pos, false)
    {
      ghost var cur := Cur();
      var jump := Screen();
      if jump == Proceed {
        return true, 0;
      }
      pos := jump.pos;
      ClearAfter(pos);
      PendingAfterReject(Found(base), inputs, gates, prefix, cur, Cur(), pos);
      return false, pos;
    }

    /** Does a pair repeat, or a gate undo an inverter? */
    method Screen() returns (jump: Jump)
      requires Valid() && InRange(Cur(), inputs)
      ensures jump == Proceed ==> Screened(Cur(), inputs)
      ensures jump != Proceed ==> jump.Inc? && jump.pos < 2 * gates
      ensures jump.Inc? ==> forall s :: Acceptable(s, inputs, gates) ==> !EqualTo(s, Cur(), jump.pos + 1)
    {
      var found; ghost var m, n;
      found, m, n := FindDuplicate();
      if found {
        RejectDuplicate(inputs, gates, Cur(), m, n);
        return Inc(2 * gates - 1);
      }
      RangeIsTopological(Cur(), inputs);
      var k := FindNotNot();
      if k > 0 {
        RejectNotNot(inputs, gates, Cur(), k);
        return Inc(2 * k + 1);
      }
      return Proceed;
    }

    /** Gives gate `n` the least pair (0, k) that is not in use. */
    method TakeLeastFreePair(n: nat, used: set<nat>)
      requires Valid() && 2 <= n < gates && InRange(Cur(), inputs) && PairsUsed(used, Cur(), n)
      requires gateInputs[2 * n] == gateInputs[2 * n + 1] == 0
      modifies gateInputs
      ensures InRange(Cur(), inputs) && Cur() == old(Cur())[2 * n + 1 := Cur()[2 * n + 1]]
      ensures PairsUsed(used, Cur(), n) && LeastFreePair(Cur(), n)
      ensures PairCode(Cur()[2 * n], Cur()[2 * n + 1]) !in used
    {
      while PairCode(gateInputs[2 * n], gateInputs[2 * n + 1]) in used
        invariant InRange(Cur(), inputs) && Cur() == old(Cur())[2 * n + 1 := Cur()[2 * n + 1]]
        invariant PairsUsed(used, Cur(), n) && LeastFreePair(Cur(), n)
        decreases inputs + n - gateInputs[2 * n + 1]
      {
        ghost var before := Cur();
        var k := gateInputs[2 * n + 1];
        UsedPairBelongsToGate(used, n, k);
        gateInputs[2 * n + 1] := k + 1;
        PairsUsedSame(used, before, Cur(), n);
        forall j: nat | j < k + 1
          ensures PairTaken(Cur(), n, 0, j)
        {
          assert PairTaken(before, n, 0, j);
        }
      }
    }

    /** A gate's second operand is an input or an earlier gate, so the pair (0, inputs + n - 1)
        is never in use below gate `n`. */
    lemma UsedPairBelongsToGate(used: set<nat>, n: nat, k: nat)
      requires Valid() && n < gates && InRange(Cur(), inputs) && PairsUsed(used, Cur(), n)
      requires PairCode(0, k) in used
      ensures PairTaken(Cur(), n, 0, k) && k + 1 < inputs + n
    {
      assert CodeTaken(Cur(), n, PairCode(0, k));
      var m :| 0 <= m < n && PairCode(0, k) == PairCode(Cur()[2 * m], Cur()[2 * m + 1]);
      assert Cur()[2 * m] < inputs + m && Cur()[2 * m + 1] < inputs + m;
      PairCodeInjective(0, k, Cur()[2 * m], Cur()[2 * m + 1]);
    }

    /** Fills the gates after the first two with the least unused pairs. Fails if the first
        two gates are alike. */
    method AdjustInitialValues(ghost prefix: seq<nat>) returns (ok: bool)
      requires Valid() && |prefix| == PrefixLength() && Plausible(Cur(), inputs, gates, prefix)
      requires forall p :: 4 <= p < 2 * gates ==> gateInputs[p] == 0
      modifies gateInputs
      ensures Plausible(Cur(), inputs, gates, prefix)
      ensures !ok ==> gates >= 2 && NetOf(Cur())[0] == NetOf(Cur())[1]
      ensures ok ==> Adjusted(Cur(), gates)
    {
      var used: set<nat> := {};
      var n := 0;
      while n < gates
        invariant n <= gates && Plausible(Cur(), inputs, gates, prefix)
        invariant PairsUsed(used, Cur(), n) && Adjusted(Cur(), n) && ClearFrom(Cur(), n)
      {
        ok, used := AdjustNext(n, used, prefix);
        if !ok {
          return;
        }
        n := n + 1;
      }
      return true;
    }

    /** Sees to gate `n` and marks its pair. */
    method AdjustNext(n: nat, used: set<nat>, ghost prefix: seq<nat>) returns (ok: bool, used': set<nat>)
      requires Valid() && n < gates && |prefix| == PrefixLength() && Plausible(Cur(), inputs, gates, prefix)
      requires PairsUsed(used, Cur(), n) && Adjusted(Cur(), n) && ClearFrom(Cur(), n)
      modifies gateInputs
      ensures Plausible(Cur(), inputs, gates, prefix)
      ensures !ok ==> gates >= 2 && NetOf(Cur())[0] == NetOf(Cur())[1]
      ensures ok ==> PairsUsed(used', Cur(), n + 1) && Adjusted(Cur(), n + 1) && ClearFrom(Cur(), n + 1)
    {
      used' := used;
      if n * 2 < 4 {
        if PairCode(gateInputs[2 * n], gateInputs[2 * n + 1]) in used {
          ghost var m := RepeatedPair(used, n);
          return false, used;
        }
      } else {
        AdjustGate(n, used, prefix);
      }
      FreshPairIsDistinct(used, n);
      used' := used + {PairCode(gateInputs[2 * n], gateInputs[2 * n + 1])};
      ok := true;
    }

    method AdjustGate(n: nat, used: set<nat>, ghost prefix: seq<nat>)
      requires Valid() && 2 <= n < gates && |prefix| == PrefixLength() && Plausible(Cur(), inputs, gates, prefix)
      requires PairsUsed(used, Cur(), n) && Adjusted(Cur(), n) && ClearFrom(Cur(), n)
      modifies gateInputs
      ensures Plausible(Cur(), inputs, gates, prefix)
      ensures PairsUsed(used, Cur(), n) && Adjusted(Cur(), n) && LeastFreePair(Cur(), n)
      ensures PairCode(Cur()[2 * n], Cur()[2 * n + 1]) !in used
      ensures ClearFrom(Cur(), n + 1)
    {
      ghost var before := Cur();
      TakeLeastFreePair(n, used);
      AdjustedSame(before, Cur(), n);
    }

    lemma PrefixRepeats(prefix: seq<nat>)
      requires Valid() && gates >= 2 && |prefix| == PrefixLength() && Plausible(Cur(), inputs, gates, prefix)
      requires NetOf(Cur())[0] == NetOf(Cur())[1]
      ensures forall s :: !InScope(s, inputs, gates, prefix)
    {
      RejectDuplicate(inputs, gates, Cur(), 0, 1);
      forall s
        ensures !InScope(s, inputs, gates, prefix)
      {
        if InScope(s, inputs, gates, prefix) {
          SharedPrefix(prefix, s, Cur());
          assert false;
        }
      }
    }

    /** Checks the order of the gates, then their columns. Either way `cur` is dealt with, and
        the place to increment is returned; what follows it may have been cleared. */
    method Judge(ghost base: nat, ghost prefix: seq<nat>) returns (pos: nat)
      requires Head(base, prefix) && AllInputsRead(Cur(), inputs) && gateInputs[0] <= gateInputs[1]
      requires Faithful(records[base..], inputs, gates)
      modifies this`records, gateInputs
      ensures base <= |records| && records[..base] == old(records[..base])
      ensures pos < 2 * gates && EqualTo(old(Cur()), Cur(), pos + 1)
      ensures Pending(Found(base), inputs, gates, prefix, Cur(), pos, false)
      ensures Faithful(records[base..], inputs, gates)
    {
      ghost var cur := Cur();
      var jump := CheckOrder();
      if jump.Inc? {
        pos := jump.pos;
        ClearAfter(pos);
        PendingAfterReject(Found(base), inputs, gates, prefix, cur, Cur(), pos);
        return;
      }
      ghost var before := records;
      var redundant := Catalogue();
      if redundant > 0 {
        pos := (redundant - 1) * 2 + 1;
        RejectTrivial(inputs, gates, cur, redundant - 1);
        ClearAfter(pos);
        PendingAfterReject(Found(base), inputs, gates, prefix, cur, Cur(), pos);
        return;
      }
      pos := 2 * gates - 1;
      PassesAllChecks(cur, inputs, gates);
      AcceptCurrent(GateSequences(before[base..]), inputs, gates, prefix, cur);
      assert records[base..] == before[base..] + [records[|before|]];
      assert Found(base) == GateSequences(before[base..]) + [cur];
      SharedPrefix(prefix, prefix, cur);
    }

    /** The main loop, from a first state to the end of its prefix. */
    method Search(ghost base: nat, ghost prefix: seq<nat>)
      requires Head(base, prefix) && prefix[0] <= prefix[1]
      requires Faithful(records[base..], inputs, gates)
      modifies this`records, gateInputs
      ensures base <= |records| && records[..base] == old(records[..base])
      ensures FoundAll(Found(base), inputs, gates, prefix) && Faithful(records[base..], inputs, gates)
    {
      while true
        invariant Head(base, prefix) && records[..base] == old(records[..base])
        invariant Faithful(records[base..], inputs, gates)
        decreases Ceiling() - Height(Cur())
      {
        var more := SearchStep(base, prefix);
        if !more {
          return;
        }
      }
    }

    method SearchStep(ghost base: nat, ghost prefix: seq<nat>) returns (more: bool)
      requires Head(base, prefix) && prefix[0] <= prefix[1]
      requires Faithful(records[base..], inputs, gates)
      modifies this`records, gateInputs
      ensures base <= |records| && records[..base] == old(records[..base])
      ensures Faithful(records[base..], inputs, gates)
      ensures !more ==> FoundAll(Found(base), inputs, gates, prefix)
      ensures more ==> Head(base, prefix) && Height(old(Cur())) < Height(Cur()) < Ceiling()
    {
      ghost var start := Cur();
      var jump := SkipUnusedInputs(base, prefix);
      if jump == Proceed {
        ghost var top := Cur();
        assert gateInputs[0] == prefix[0] && gateInputs[1] == prefix[1];
        var pos := Judge(base, prefix);
        more := Increment(pos, false, top, base, prefix);
      } else {
        SharedPrefix(prefix, prefix, start);
        more := Increment(jump.pos, jump.IncWraps?, start, base, prefix);
      }
    }

    ghost function Prefix(start: Start): (prefix: seq<nat>)
      ensures |prefix| == PrefixLength()
    {
      if gates < 2 then [start.first, start.second]
      else [start.first, start.second, start.third, start.fourth]
    }

    /** The iteration of the outer loops that is responsible for `s`. */
    ghost predicate Assigned(s: seq<nat>, start: Start) {
      Prefix(start) <= s && (gates == 1 ==> start.third == start.fourth == 0)
    }

    /** One iteration of the outer loops: writes exactly the acceptable networks that start
        this way, in increasing order. */
    method Explore(start: Start)
      requires Valid() && InBounds(start, inputs)
      modifies this`records, gateInputs
      ensures |old(records)| <= |records| && records[..|old(records)|] == old(records)
      ensures Increasing(Found(|old(records)|), gates)
      ensures forall s :: s in Found(|old(records)|) <==> Acceptable(s, inputs, gates) && Assigned(s, start)
      ensures Faithful(records[|old(records)|..], inputs, gates)
    {
      ghost var base, prefix := |records|, Prefix(start);
      assert records[base..] == [] && records[..base] == records;
      if start.first > start.second || start.third > start.fourth {
        NothingUnordered(start);
        return;
      }
      if gates == 1 {
        if start.third != 0 || start.fourth != 0 {
          return;
        }
      } else {
        if start.third == 0 && start.fourth == 0 {
          NothingWithZeroSecond(start);
          return;
        }
      }
      SetFirstState(start);
      var ok := AdjustInitialValues(prefix);
      assert forall s :: Acceptable(s, inputs, gates) && Assigned(s, start) ==> InScope(s, inputs, gates, prefix);
      if !ok {
        PrefixRepeats(prefix);
        return;
      }
      FirstStateIsLeast(inputs, gates, prefix, Cur());
      FirstStateIsScreened(Cur());
      Search(base, prefix);
    }

    method SetFirstState(start: Start)
      requires Valid() && InBounds(start, inputs)
      modifies gateInputs
      ensures Plausible(Cur(), inputs, gates, Prefix(start))
      ensures forall p :: 4 <= p < 2 * gates ==> gateInputs[p] == 0
    {
      forall p | 0 <= p < gateInputs.Length {
        gateInputs[p] := 0;
      }
      gateInputs[0] := start.first;
      gateInputs[1] := start.second;
      gateInputs[2] := start.third;
      gateInputs[3] := start.fourth;
    }

    lemma NothingUnordered(start: Start)
      requires Valid() && (start.first > start.second || start.third > start.fourth)
      ensures forall s :: Acceptable(s, inputs, gates) ==> !Assigned(s, start)
    {
      forall s | Acceptable(s, inputs, gates)
        ensures !Assigned(s, start)
      {
        OrderedPlaces(s);
      }
    }

    lemma OrderedPlaces(s: seq<nat>)
      requires Valid() && Acceptable(s, inputs, gates)
      ensures s[0] <= s[1] && (gates >= 2 ==> s[2] <= s[3])
    {
      assert NetOf(s)[0].a <= NetOf(s)[0].b;
      if gates >= 2 {
        assert NetOf(s)[1].a <= NetOf(s)[1].b;
      }
    }

    /** If the second gate reads (0, 0), the first gate has the same pair or could come after it. */
    lemma NothingWithZeroSecond(start: Start)
      requires Valid() && InBounds(start, inputs) && gates >= 2 && start.third == 0 && start.fourth == 0
      ensures forall s :: Acceptable(s, inputs, gates) ==> !Assigned(s, start)
    {
      forall s | Acceptable(s, inputs, gates)
        ensures !Assigned(s, start)
      {
        if Assigned(s, start) {
          SharedPrefix(Prefix(start), Prefix(start), s);
          var net := NetOf(s);
          assert net[1] == Gate(0, 0) && net[0] == Gate(start.first, start.second);
          assert net[0] != net[1];
          assert SwapsBefore(net, inputs, 0, 1);
          assert false;
        }
      }
    }

    lemma FirstStateIsScreened(cur: seq<nat>)
      requires Valid() && |cur| == 2 * gates && InRange(cur, inputs) && DistinctPairs(NetOf(cur))
      requires forall g :: 2 <= g < gates ==> LeastFreePair(cur, g)
      ensures Screened(cur, inputs)
    {
      RangeIsTopological(cur, inputs);
      assert NetOf(cur)[0].a < inputs;
      forall n: nat | 2 <= n < gates
        ensures NetOf(cur)[n].a == 0
      {
        assert LeastFreePair(cur, n);
      }
    }

    // ---- The whole run ----

    ghost predicate AssignedAmong(s: seq<nat>, schedule: seq<Start>) {
      exists i :: 0 <= i < |schedule| && Assigned(s, schedule[i])
    }

    /** Whatever the order of the iterations, the run writes every acceptable network, once,
        with its truth table, and nothing else. */
    method CreateNandCombinations(schedule: seq<Start>)
      requires Valid() && records == [] && Covers(schedule, inputs)
      modifies this`records, gateInputs
      ensures forall s :: s in GateSequences(records) <==> Acceptable(s, inputs, gates)
      ensures forall i, j :: 0 <= i < j < |records| ==> records[i].gateInputs != records[j].gateInputs
      ensures Faithful(records, inputs, gates)
    {
      var n := 0;
      while n < |schedule|
        invariant n <= |schedule|
        invariant forall s :: s in GateSequences(records) <==> Acceptable(s, inputs, gates) && AssignedAmong(s, schedule[..n])
        invariant forall i, j :: 0 <= i < j < |records| ==> records[i].gateInputs != records[j].gateInputs
        invariant Faithful(records, inputs, gates)
      {
        ghost var before := records;
        Explore(schedule[n]);
        IterationsAreDisjoint(schedule, n, before);
        n := n + 1;
      }
      assert schedule[..n] == schedule;
      forall s | Acceptable(s, inputs, gates)
        ensures AssignedAmong(s, schedule)
      {
        var start := ResponsibleIteration(s);
        var i :| 0 <= i < |schedule| && schedule[i] == start;
      }
    }

    lemma ResponsibleIteration(s: seq<nat>) returns (start: Start)
      requires Valid() && Acceptable(s, inputs, gates)
      ensures InBounds(start, inputs) && Assigned(s, start)
    {
      start := if gates < 2 then Start(s[0], s[1], 0, 0) else Start(s[0], s[1], s[2], s[3]);
    }

    lemma IterationIsUnique(s: seq<nat>, start: Start, other: Start)
      requires Valid() && |s| == 2 * gates && Assigned(s, start) && Assigned(s, other)
      ensures start == other
    {
      SharedPrefix(Prefix(start), Prefix(start), s);
      SharedPrefix(Prefix(other), Prefix(other), s);
      assert Prefix(start) == Prefix(other);
      assert Prefix(start)[0] == start.first && Prefix(other)[0] == other.first;
      assert Prefix(start)[1] == start.second && Prefix(other)[1] == other.second;
      if gates >= 2 {
        assert Prefix(start)[2] == start.third && Prefix(other)[2] == other.third;
        assert Prefix(start)[3] == start.fourth && Prefix(other)[3] == other.fourth;
      }
    }

    lemma IterationsAreDisjoint(schedule: seq<Start>, n: nat, before: seq<Record>)
      requires Valid() && n < |schedule| && Covers(schedule, inputs)
      requires |before| <= |records| && records[..|before|] == before
      requires forall s :: s in GateSequences(before) <==> Acceptable(s, inputs, gates) && AssignedAmong(s, schedule[..n])
      requires forall i, j :: 0 <= i < j < |before| ==> before[i].gateInputs != before[j].gateInputs
      requires Faithful(before, inputs, gates) && Faithful(records[|before|..], inputs, gates)
      requires Increasing(Found(|before|), gates)
      requires forall s :: s in Found(|before|) <==> Acceptable(s, inputs, gates) && Assigned(s, schedule[n])
      ensures forall s :: s in GateSequences(records) <==> Acceptable(s, inputs, gates) && AssignedAmong(s, schedule[..n + 1])
      ensures forall i, j :: 0 <= i < j < |records| ==> records[i].gateInputs != records[j].gateInputs
      ensures Faithful(records, inputs, gates)
    {
      var added := Found(|before|);
      assert records == before + records[|before|..];
      assert GateSequences(records) == GateSequences(before) + added;
      forall s
        ensures AssignedAmong(s, schedule[..n + 1]) <==> AssignedAmong(s, schedule[..n]) || Assigned(s, schedule[n])
      {
        assert schedule[..n + 1] == schedule[..n] + [schedule[n]];
      }
      forall i, j | 0 <= i < j < |records|
        ensures records[i].gateInputs != records[j].gateInputs
      {
        assert GateSequences(records)[i] == records[i].gateInputs && GateSequences(records)[j] == records[j].gateInputs;
        if |before| <= i {
          Trichotomy(added[i - |before|], added[j - |before|], 2 * gates);
        } else if j >= |before| {
          assert GateSequences(before)[i] in GateSequences(before) && added[j - |before|] in added;
          NotTwice(schedule, n, GateSequences(before)[i]);
        }
      }
    }

    lemma NotTwice(schedule: seq<Start>, n: nat, s: seq<nat>)
      requires Valid() && n < |schedule| && Covers(schedule, inputs)
      requires |s| == 2 * gates && AssignedAmong(s, schedule[..n])
      ensures !Assigned(s, schedule[n])
    {
      var i :| 0 <= i < n && Assigned(s, schedule[..n][i]);
      if Assigned(s, schedule[n]) {
        IterationIsUnique(s, schedule[i], schedule[n]);
      }
    }
  }
}
