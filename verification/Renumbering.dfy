/** Renumbering the gates of a network, and the numbering the generator settles for: no later
    gate that could have come earlier has a smaller input pair. */
module Renumbering {
  import opened Bits
  import opened LexOrder
  import opened Networks

  // ---- The flat form: two sources a gate ----

  ghost function Flatten(net: Net): (s: seq<nat>)
    ensures |s| == 2 * |net|
    ensures forall g :: 0 <= g < |net| ==> s[2 * g] == net[g].a && s[2 * g + 1] == net[g].b
  {
    if net == [] then [] else Flatten(net[..|net| - 1]) + [net[|net| - 1].a, net[|net| - 1].b]
  }

  ghost function NetOf(s: seq<nat>): (net: Net)
    ensures |net| == |s| / 2
  {
    seq(|s| / 2, g requires 0 <= g < |s| / 2 => Gate(s[2 * g], s[2 * g + 1]))
  }

  lemma NetOfFlatten(net: Net)
    ensures NetOf(Flatten(net)) == net
  {
    assert forall g :: 0 <= g < |net| ==> NetOf(Flatten(net))[g] == net[g];
  }

  // ---- Pairs in order, and the swap check ----

  ghost predicate PairLess(p: Gate, q: Gate) {
    p.a < q.a || (p.a == q.a && p.b < q.b)
  }

  ghost predicate Ordered(net: Net) {
    forall g :: 0 <= g < |net| ==> net[g].a <= net[g].b
  }

  /** Gate `n` has the smaller pair and reads nothing that gate `m` could not read. */
  ghost predicate SwapsBefore(net: Net, inputs: nat, m: nat, n: nat)
    requires m < n < |net|
  {
    PairLess(net[n], net[m]) && net[n].a < inputs + m && net[n].b < inputs + m
  }

  ghost predicate Canonical(net: Net, inputs: nat) {
    Ordered(net) && forall m: nat, n: nat :: m < n < |net| ==> !SwapsBefore(net, inputs, m, n)
  }

  // ---- Renumbering ----

  ghost predicate Permutation(p: seq<nat>) {
    && (forall i :: 0 <= i < |p| ==> p[i] < |p|)
    && (forall i, j :: 0 <= i < j < |p| ==> p[i] != p[j])
  }

  function Remap(x: nat, inputs: nat, p: seq<nat>): nat
    requires x < inputs + |p|
  {
    if x < inputs then x else inputs + p[x - inputs]
  }

  function SortPair(a: nat, b: nat): Gate {
    if a <= b then Gate(a, b) else Gate(b, a)
  }

  ghost function RemapGate(net: Net, inputs: nat, p: seq<nat>, g: nat): Gate
    requires Topological(net, inputs) && |net| == |p| && g < |net|
  {
    assert net[g].a < inputs + g && net[g].b < inputs + g;
    SortPair(Remap(net[g].a, inputs, p), Remap(net[g].b, inputs, p))
  }

  ghost predicate GateMoved(net: Net, other: Net, inputs: nat, p: seq<nat>, g: nat)
    requires Topological(net, inputs) && |net| == |other| == |p| && Permutation(p) && g < |net|
  {
    other[p[g]] == RemapGate(net, inputs, p, g)
  }

  /** `other` is `net` with gate `g` moved to position `p[g]`, its operands following. */
  ghost predicate Renumbered(net: Net, other: Net, inputs: nat, p: seq<nat>) {
    && Topological(net, inputs) && Topological(other, inputs)
    && |net| == |other| == |p| && Permutation(p)
    && forall g: nat :: g < |net| ==> GateMoved(net, other, inputs, p, g)
  }

  lemma {:induction false} RenumberedValue(net: Net, other: Net, inputs: nat, p: seq<nat>, row: nat, src: nat)
    requires Renumbered(net, other, inputs, p) && src < inputs + |net|
    ensures Value(other, inputs, row, Remap(src, inputs, p)) == Value(net, inputs, row, src)
    decreases src
  {
    if src >= inputs {
      var g := src - inputs;
      assert GateMoved(net, other, inputs, p, g);
      RenumberedValue(net, other, inputs, p, row, net[g].a);
      RenumberedValue(net, other, inputs, p, row, net[g].b);
    }
  }

  /** Renumbering keeps every gate's truth table. */
  lemma RenumberedColumn(net: Net, other: Net, inputs: nat, p: seq<nat>, g: nat)
    requires Renumbered(net, other, inputs, p) && g < |net|
    ensures GateColumn(other, inputs, p[g]) == GateColumn(net, inputs, g)
  {
    forall row: nat | row < Pow2(inputs)
      ensures GateColumn(other, inputs, p[g])[row] == GateColumn(net, inputs, g)[row]
    {
      RenumberedValue(net, other, inputs, p, row, inputs + g);
    }
  }

  ghost function Compose(p: seq<nat>, q: seq<nat>): (r: seq<nat>)
    requires |p| == |q| && Permutation(p)
    ensures |r| == |p|
  {
    seq(|p|, i requires 0 <= i < |p| => q[p[i]])
  }

  lemma RenumberedCompose(net: Net, mid: Net, other: Net, inputs: nat, p: seq<nat>, q: seq<nat>)
    requires Renumbered(net, mid, inputs, p) && Renumbered(mid, other, inputs, q)
    ensures Renumbered(net, other, inputs, Compose(p, q))
  {
    var r := Compose(p, q);
    assert Permutation(r);
    forall g: nat | g < |net|
      ensures GateMoved(net, other, inputs, r, g)
    {
      assert GateMoved(net, mid, inputs, p, g);
      assert GateMoved(mid, other, inputs, q, p[g]);
    }
  }

  // ---- Canonical order is reachable ----

  ghost function Identity(n: nat): (p: seq<nat>)
    ensures |p| == n && Permutation(p) && forall i :: 0 <= i < n ==> p[i] == i
  {
    seq(n, i requires 0 <= i => i)
  }

  ghost function SortAllPairs(net: Net): (other: Net)
    ensures |other| == |net| && Ordered(other)
  {
    seq(|net|, g requires 0 <= g < |net| => SortPair(net[g].a, net[g].b))
  }

  lemma SortingPairsRenumbers(net: Net, inputs: nat)
    requires Topological(net, inputs)
    ensures Renumbered(net, SortAllPairs(net), inputs, Identity(|net|))
  {
  }

  lemma OrderedRenumbersItself(net: Net, inputs: nat)
    requires Topological(net, inputs) && Ordered(net)
    ensures Renumbered(net, net, inputs, Identity(|net|))
  {
    SortingPairsRenumbers(net, inputs);
    assert SortAllPairs(net) == net;
  }

  /** Gate `n` moves to position `m`; gates `m..n` move up by one. */
  ghost function MoveMap(size: nat, m: nat, n: nat): (p: seq<nat>)
    requires m < n < size
    ensures |p| == size && Permutation(p)
    ensures forall g :: 0 <= g < size ==>
      p[g] == if g < m || g > n then g else if g == n then m else g + 1
  {
    seq(size, g requires 0 <= g => if g < m || g > n then g else if g == n then m else g + 1)
  }

  function MovedFrom(h: nat, m: nat, n: nat): nat
    requires m < n
  {
    if h < m || h > n then h else if h == m then n else h - 1
  }

  ghost function Move(net: Net, inputs: nat, m: nat, n: nat): (other: Net)
    requires Topological(net, inputs) && m < n < |net|
    ensures |other| == |net|
    ensures forall h :: 0 <= h < |net| ==>
      other[h] == RemapGate(net, inputs, MoveMap(|net|, m, n), MovedFrom(h, m, n))
  {
    seq(|net|, h requires 0 <= h < |net| => RemapGate(net, inputs, MoveMap(|net|, m, n), MovedFrom(h, m, n)))
  }

  lemma RemapBound(x: nat, inputs: nat, p: seq<nat>, m: nat, n: nat, h: nat)
    requires m < n < |p| && h < |p| && p == MoveMap(|p|, m, n)
    requires x < inputs + if h < m || h > n then h else if h == m then m else h - 1
    ensures Remap(x, inputs, p) < inputs + h
    ensures h <= m ==> Remap(x, inputs, p) == x
  {
  }

  lemma MovedGate(net: Net, inputs: nat, m: nat, n: nat, h: nat)
    requires Topological(net, inputs) && Ordered(net) && m < n < |net| && h < |net|
    requires SwapsBefore(net, inputs, m, n)
    ensures var gate := Move(net, inputs, m, n)[h]; gate.a < inputs + h && gate.b < inputs + h && gate.a <= gate.b
    ensures h < m ==> Move(net, inputs, m, n)[h] == net[h]
    ensures h == m ==> Move(net, inputs, m, n)[h] == net[n]
  {
    var p, g := MoveMap(|net|, m, n), MovedFrom(h, m, n);
    assert net[g].a < inputs + g && net[g].b < inputs + g && net[g].a <= net[g].b;
    RemapBound(net[g].a, inputs, p, m, n, h);
    RemapBound(net[g].b, inputs, p, m, n, h);
  }

  lemma MoveRenumbers(net: Net, inputs: nat, m: nat, n: nat)
    requires Topological(net, inputs) && Ordered(net) && m < n < |net| && SwapsBefore(net, inputs, m, n)
    ensures Ordered(Move(net, inputs, m, n))
    ensures Renumbered(net, Move(net, inputs, m, n), inputs, MoveMap(|net|, m, n))
  {
    hide Value;
    forall h | 0 <= h < |net|
      ensures var gate := Move(net, inputs, m, n)[h]; gate.a < inputs + h && gate.b < inputs + h && gate.a <= gate.b
    {
      MovedGate(net, inputs, m, n, h);
    }
  }

  lemma SmallerPairDecides(net: Net, other: Net, m: nat)
    requires |net| == |other| && m < |net| && other[..m] == net[..m] && PairLess(other[m], net[m])
    ensures Less(Flatten(other), Flatten(net), 2 * |net|)
  {
    var s, t := Flatten(other), Flatten(net);
    forall i | 0 <= i < 2 * m
      ensures s[i] == t[i]
    {
      var g := i / 2;
      assert i == 2 * g || i == 2 * g + 1;
      assert other[g] == other[..m][g] == net[..m][g] == net[g];
    }
    assert s[2 * m] == other[m].a && t[2 * m] == net[m].a;
    LessWitness(s, t, if other[m].a < net[m].a then 2 * m else 2 * m + 1, 2 * |net|);
  }

  /** When the swap check rejects a network, the move gives a renumbering with a
      lexicographically smaller flat form. */
  lemma MoveDecreases(net: Net, inputs: nat, m: nat, n: nat)
    requires Topological(net, inputs) && Ordered(net) && m < n < |net| && SwapsBefore(net, inputs, m, n)
    ensures Less(Flatten(Move(net, inputs, m, n)), Flatten(net), 2 * |net|)
  {
    var other := Move(net, inputs, m, n);
    forall h | 0 <= h <= m
      ensures other[h] == if h < m then net[h] else net[n]
    {
      MovedGate(net, inputs, m, n, h);
    }
    assert other[..m] == net[..m];
    SmallerPairDecides(net, other, m);
  }

  lemma SmallerRanksLower(net: Net, other: Net, inputs: nat)
    requires Topological(net, inputs) && Topological(other, inputs) && |net| == |other|
    requires Less(Flatten(other), Flatten(net), 2 * |net|)
    ensures Rank(Flatten(other), inputs + |net|, 2 * |net|) < Rank(Flatten(net), inputs + |net|, 2 * |net|)
  {
    FlattenDigits(net, inputs);
    FlattenDigits(other, inputs);
    RankMonotone(Flatten(other), Flatten(net), inputs + |net|, 2 * |net|);
  }

  lemma {:induction false} FlattenDigits(net: Net, inputs: nat)
    requires Topological(net, inputs)
    ensures Digits(Flatten(net), inputs + |net|)
  {
    var s := Flatten(net);
    forall i | 0 <= i < |s|
      ensures s[i] < inputs + |net|
    {
      var g := i / 2;
      assert i == 2 * g || i == 2 * g + 1;
      assert s[2 * g] == net[g].a && s[2 * g + 1] == net[g].b;
      assert net[g].a < inputs + g && net[g].b < inputs + g;
    }
  }

  lemma CanonicalStep(net: Net, inputs: nat) returns (mid: Net, p: seq<nat>)
    requires Topological(net, inputs) && Ordered(net) && !Canonical(net, inputs)
    ensures Renumbered(net, mid, inputs, p) && Ordered(mid)
    ensures Rank(Flatten(mid), inputs + |net|, 2 * |net|) < Rank(Flatten(net), inputs + |net|, 2 * |net|)
  {
    var m: nat, n: nat :| m < n < |net| && SwapsBefore(net, inputs, m, n);
    MoveRenumbers(net, inputs, m, n);
    MoveDecreases(net, inputs, m, n);
    mid, p := Move(net, inputs, m, n), MoveMap(|net|, m, n);
    SmallerRanksLower(net, mid, inputs);
  }

  lemma CanonicalFromOrdered(net: Net, inputs: nat) returns (other: Net, p: seq<nat>)
    requires Topological(net, inputs) && Ordered(net)
    ensures Renumbered(net, other, inputs, p) && Canonical(other, inputs)
    decreases Rank(Flatten(net), inputs + |net|, 2 * |net|)
  {
    if Canonical(net, inputs) {
      OrderedRenumbersItself(net, inputs);
      other, p := net, Identity(|net|);
    } else {
      var mid, first := CanonicalStep(net, inputs);
      var rest;
      other, rest := CanonicalFromOrdered(mid, inputs);
      RenumberedCompose(net, mid, other, inputs, first, rest);
      p := Compose(first, rest);
    }
  }

  /** Every network has a renumbering that passes the order and swap checks. */
  lemma CanonicalReachable(net: Net, inputs: nat) returns (other: Net, p: seq<nat>)
    requires Topological(net, inputs)
    ensures Renumbered(net, other, inputs, p) && Canonical(other, inputs)
  {
    SortingPairsRenumbers(net, inputs);
    var q;
    other, q := CanonicalFromOrdered(SortAllPairs(net), inputs);
    RenumberedCompose(net, SortAllPairs(net), other, inputs, Identity(|net|), q);
    p := Compose(Identity(|net|), q);
  }
}
