/** What the generator accepts, and why each of its jumps is safe. `cur` is the content of the
    gate_inputs array; a jump that increments position `pos` must have dealt with every
    sequence whose first `pos + 1` places are at or below those of `cur`. */
module Odometer {
  import opened Bits
  import opened LexOrder
  import opened Networks
  import opened Renumbering

  // ---- Acceptable sequences ----

  ghost predicate Trivial(net: Net, inputs: nat, g: nat)
    requires Topological(net, inputs) && g < |net|
  {
    Constant(GateColumn(net, inputs, g)) || exists m :: 0 <= m < inputs && CopyOf(GateColumn(net, inputs, g), m)
  }

  ghost predicate InputRead(s: seq<nat>, i: nat) {
    i in s
  }

  ghost predicate AllInputsRead(s: seq<nat>, inputs: nat) {
    forall i: nat :: i < inputs ==> InputRead(s, i)
  }

  ghost predicate DistinctPairs(net: Net) {
    forall m, n :: 0 <= m < n < |net| ==> net[m] != net[n]
  }

  /** Gate `n` inverts gate `net[n].a - inputs`, which itself inverts a single source. */
  ghost predicate NotNot(net: Net, inputs: nat, n: nat)
    requires Topological(net, inputs) && n < |net|
  {
    && net[n].a == net[n].b >= inputs
    && var m := net[n].a - inputs;
       assert net[n].a < inputs + n;
       net[m].a == net[m].b
  }

  ghost predicate InRange(s: seq<nat>, inputs: nat) {
    forall p :: 0 <= p < |s| ==> s[p] < inputs + p / 2
  }

  ghost predicate Acceptable(s: seq<nat>, inputs: nat, gates: nat) {
    && |s| == 2 * gates && InRange(s, inputs)
    && var net := NetOf(s);
       RangeIsTopological(s, inputs);
       && Canonical(net, inputs) && AllInputsRead(s, inputs) && DistinctPairs(net)
       && (forall g: nat :: g < gates ==> !NotNot(net, inputs, g) && !Trivial(net, inputs, g))
  }

  lemma RangeIsTopological(s: seq<nat>, inputs: nat)
    requires |s| % 2 == 0
    ensures InRange(s, inputs) <==> Topological(NetOf(s), inputs)
  {
    var net := NetOf(s);
    if InRange(s, inputs) {
      forall g | 0 <= g < |net|
        ensures net[g].a < inputs + g && net[g].b < inputs + g
      {
        assert s[2 * g] < inputs + (2 * g) / 2 && s[2 * g + 1] < inputs + (2 * g + 1) / 2;
      }
    }
    if Topological(net, inputs) {
      forall p | 0 <= p < |s|
        ensures s[p] < inputs + p / 2
      {
        var g := p / 2;
        assert p == 2 * g || p == 2 * g + 1;
        assert net[g].a < inputs + g && net[g].b < inputs + g;
      }
    }
  }

  ghost predicate InScope(s: seq<nat>, inputs: nat, gates: nat, prefix: seq<nat>) {
    Acceptable(s, inputs, gates) && prefix <= s
  }

  // ---- Progress of the enumeration ----

  ghost predicate Increasing(found: seq<seq<nat>>, gates: nat) {
    && (forall i :: 0 <= i < |found| ==> |found[i]| == 2 * gates)
    && (forall i, j :: 0 <= i < j < |found| ==> Less(found[i], found[j], 2 * gates))
  }

  ghost predicate Sound(found: seq<seq<nat>>, inputs: nat, gates: nat, prefix: seq<nat>) {
    Increasing(found, gates) && forall s :: s in found ==> InScope(s, inputs, gates, prefix)
  }

  /** Everything in scope below `cur` has been found, and nothing else. */
  ghost predicate FoundBelow(found: seq<seq<nat>>, inputs: nat, gates: nat, prefix: seq<nat>, cur: seq<nat>) {
    && |cur| == 2 * gates && Sound(found, inputs, gates, prefix)
    && forall s :: InScope(s, inputs, gates, prefix) ==> (s in found <==> Less(s, cur, 2 * gates))
  }

  /** Everything in scope whose first `k` places do not exceed those of `cur` has been found,
      and nothing else. */
  ghost predicate FoundThrough(found: seq<seq<nat>>, inputs: nat, gates: nat, prefix: seq<nat>, cur: seq<nat>, k: nat) {
    && |cur| == 2 * gates && k <= 2 * gates && Sound(found, inputs, gates, prefix)
    && forall s :: InScope(s, inputs, gates, prefix) ==> (s in found <==> LessEq(s, cur, k))
  }

  ghost predicate FoundAll(found: seq<seq<nat>>, inputs: nat, gates: nat, prefix: seq<nat>) {
    && Sound(found, inputs, gates, prefix)
    && forall s :: InScope(s, inputs, gates, prefix) ==> s in found
  }

  /** `cur` starts with the prefix and stays in range. */
  ghost predicate Plausible(cur: seq<nat>, inputs: nat, gates: nat, prefix: seq<nat>) {
    |cur| == 2 * gates && prefix <= cur && InRange(cur, inputs)
  }

  // ---- The jumps ----

  /** Rejecting `cur` because of its first `k` places: skip all that share them. */
  lemma JumpOverPrefix(found: seq<seq<nat>>, inputs: nat, gates: nat, prefix: seq<nat>, cur: seq<nat>, k: nat)
    requires FoundBelow(found, inputs, gates, prefix, cur) && k <= 2 * gates
    requires forall s :: InScope(s, inputs, gates, prefix) ==> !EqualTo(s, cur, k)
    ensures FoundThrough(found, inputs, gates, prefix, cur, k)
  {
    forall s | InScope(s, inputs, gates, prefix)
      ensures s in found <==> LessEq(s, cur, k)
    {
      LessExtends(s, cur, k, 2 * gates);
    }
  }

  /** Accepting `cur`. */
  lemma AcceptCurrent(found: seq<seq<nat>>, inputs: nat, gates: nat, prefix: seq<nat>, cur: seq<nat>)
    requires FoundBelow(found, inputs, gates, prefix, cur) && InScope(cur, inputs, gates, prefix)
    ensures FoundThrough(found + [cur], inputs, gates, prefix, cur, 2 * gates)
  {
    var more := found + [cur];
    forall s | s in more
      ensures InScope(s, inputs, gates, prefix)
    {
      assert s in found || s == cur;
    }
    forall i, j | 0 <= i < j < |more|
      ensures Less(more[i], more[j], 2 * gates)
    {
      if j == |found| {
        assert found[i] in found;
      }
    }
    assert Sound(more, inputs, gates, prefix);
    forall s | InScope(s, inputs, gates, prefix)
      ensures s in more <==> LessEq(s, cur, 2 * gates)
    {
      assert s in more <==> s in found || s == cur;
      if EqualTo(s, cur, 2 * gates) {
        assert s == cur;
      }
    }
  }

  /** Position `k - 1` is at its maximum: everything that shares the first `k - 1` places is done. */
  lemma Wrap(found: seq<seq<nat>>, inputs: nat, gates: nat, prefix: seq<nat>, cur: seq<nat>, k: nat)
    requires 0 < k && FoundThrough(found, inputs, gates, prefix, cur, k)
    requires cur[k - 1] + 1 >= inputs + (k - 1) / 2
    ensures FoundThrough(found, inputs, gates, prefix, cur, k - 1)
  {
    forall s | InScope(s, inputs, gates, prefix)
      ensures LessEq(s, cur, k) <==> LessEq(s, cur, k - 1)
    {
      assert s[k - 1] < inputs + (k - 1) / 2;
    }
  }

  /** A place to increment: everything up to it, or everything sharing the places before it
      when it wraps, has been dealt with. */
  ghost predicate Pending(found: seq<seq<nat>>, inputs: nat, gates: nat, prefix: seq<nat>, cur: seq<nat>, pos: nat,
                          wraps: bool)
  {
    && |cur| == 2 * gates && pos < 2 * gates && |prefix| <= 4 && |prefix| <= |cur| && (wraps ==> pos >= 4)
    && (forall i :: 0 <= i < |prefix| && i <= pos ==> cur[i] == prefix[i])
    && (forall p :: 0 <= p < pos ==> cur[p] < inputs + p / 2)
    && FoundThrough(found, inputs, gates, prefix, cur, if wraps then pos else pos + 1)
  }

  lemma FoundThroughSame(found: seq<seq<nat>>, inputs: nat, gates: nat, prefix: seq<nat>, cur: seq<nat>,
                         next: seq<nat>, k: nat)
    requires FoundThrough(found, inputs, gates, prefix, cur, k) && |next| == |cur| && EqualTo(cur, next, k)
    ensures FoundThrough(found, inputs, gates, prefix, next, k)
  {
    forall s | InScope(s, inputs, gates, prefix)
      ensures LessEq(s, next, k) == LessEq(s, cur, k)
    {
      SamePrefix(s, cur, next, k);
    }
  }

  /** After a rejection because of the places up to `pos`, the increment starts there. */
  lemma PendingAfterReject(found: seq<seq<nat>>, inputs: nat, gates: nat, prefix: seq<nat>, cur: seq<nat>,
                           next: seq<nat>, pos: nat)
    requires FoundBelow(found, inputs, gates, prefix, cur) && Plausible(cur, inputs, gates, prefix)
    requires |prefix| <= 4 && pos < 2 * gates
    requires forall s :: Acceptable(s, inputs, gates) ==> !EqualTo(s, cur, pos + 1)
    requires |next| == |cur| && EqualTo(cur, next, pos + 1)
    ensures Pending(found, inputs, gates, prefix, next, pos, false)
  {
    JumpOverPrefix(found, inputs, gates, prefix, cur, pos + 1);
    FoundThroughSame(found, inputs, gates, prefix, cur, next, pos + 1);
    SharedPrefix(prefix, prefix, cur);
  }

  /** The value at `pos` was the last one: wrap there. */
  lemma PendingWraps(found: seq<seq<nat>>, inputs: nat, gates: nat, prefix: seq<nat>, cur: seq<nat>, next: seq<nat>,
                     pos: nat)
    requires Pending(found, inputs, gates, prefix, cur, pos, false) && pos >= 4
    requires cur[pos] + 1 >= inputs + pos / 2 && |next| == |cur| && EqualTo(cur, next, pos)
    ensures Pending(found, inputs, gates, prefix, next, pos, true)
  {
    Wrap(found, inputs, gates, prefix, cur, pos + 1);
    FoundThroughSame(found, inputs, gates, prefix, cur, next, pos);
  }

  /** A wrapped place passes the increment on to the place before it. */
  lemma PendingCarries(found: seq<seq<nat>>, inputs: nat, gates: nat, prefix: seq<nat>, cur: seq<nat>, next: seq<nat>,
                       pos: nat)
    requires Pending(found, inputs, gates, prefix, cur, pos, true) && pos > 4
    requires |next| == |cur| && EqualTo(cur, next, pos)
    ensures Pending(found, inputs, gates, prefix, next, pos - 1, false)
  {
    FoundThroughSame(found, inputs, gates, prefix, cur, next, pos);
  }

  /** Place `p` holds the least value an ordered pair allows. */
  ghost predicate LeastPlace(s: seq<nat>, p: nat)
    requires 0 < p < |s|
  {
    s[p] == if p % 2 == 1 then s[p - 1] else 0
  }

  /** What `cur` looks like after incrementing `pos` and refilling the places behind it. */
  ghost predicate Refilled(next: seq<nat>, cur: seq<nat>, pos: nat)
    requires pos < |cur|
  {
    && |next| == |cur| && EqualTo(next, cur, pos) && next[pos] == cur[pos] + 1
    && forall p :: pos < p < |cur| ==> LeastPlace(next, p)
  }

  lemma RefilledIsLeast(s: seq<nat>, next: seq<nat>, cur: seq<nat>, inputs: nat, gates: nat, pos: nat, k: nat)
    requires pos < k <= |cur| == 2 * gates && Refilled(next, cur, pos) && Acceptable(s, inputs, gates)
    ensures Less(s, next, k) <==> LessEq(s, cur, pos + 1)
    decreases k
  {
    if k == pos + 1 {
      SamePrefix(s, cur, next, pos);
    } else {
      RefilledIsLeast(s, next, cur, inputs, gates, pos, k - 1);
      assert LeastPlace(next, k - 1);
      if EqualTo(s, next, k - 1) {
        var g := (k - 1) / 2;
        assert NetOf(s)[g].a <= NetOf(s)[g].b;
        assert s[2 * g] <= s[2 * g + 1];
      }
    }
  }

  lemma SamePrefix(s: seq<nat>, t: seq<nat>, u: seq<nat>, k: nat)
    requires k <= |s| && k <= |t| && k <= |u| && EqualTo(t, u, k)
    ensures Less(s, t, k) == Less(s, u, k) && Less(t, s, k) == Less(u, s, k)
    ensures EqualTo(s, t, k) == EqualTo(s, u, k)
  {
    if k > 0 {
      SamePrefix(s, t, u, k - 1);
    }
  }

  lemma Advanced(found: seq<seq<nat>>, inputs: nat, gates: nat, prefix: seq<nat>, cur: seq<nat>, pos: nat,
                 next: seq<nat>)
    requires pos < 2 * gates && FoundThrough(found, inputs, gates, prefix, cur, pos + 1) && Refilled(next, cur, pos)
    ensures FoundBelow(found, inputs, gates, prefix, next)
  {
    forall s | InScope(s, inputs, gates, prefix)
      ensures s in found <==> Less(s, next, 2 * gates)
    {
      RefilledIsLeast(s, next, cur, inputs, gates, pos, 2 * gates);
    }
  }

  /** Once all that shares the prefix is done, all is done. */
  lemma Finished(found: seq<seq<nat>>, inputs: nat, gates: nat, prefix: seq<nat>, cur: seq<nat>, k: nat)
    requires FoundThrough(found, inputs, gates, prefix, cur, k) && k <= |prefix| && EqualTo(prefix, cur, k)
    ensures FoundAll(found, inputs, gates, prefix)
  {
    forall s | InScope(s, inputs, gates, prefix)
      ensures s in found
    {
      SharedPrefix(prefix, prefix, s);
    }
  }

  // ---- Why the rejections are right ----

  lemma NetAgrees(s: seq<nat>, t: seq<nat>, g: nat)
    requires |s| == |t| && |s| % 2 == 0 && 2 * g + 2 <= |s| && EqualTo(s, t, 2 * g + 2)
    ensures forall h :: 0 <= h <= g ==> NetOf(s)[h] == NetOf(t)[h]
  {
  }

  /** A bad gate is bad whatever follows it. */
  lemma TrivialInPrefix(s: seq<nat>, t: seq<nat>, inputs: nat, g: nat)
    requires |s| == |t| && |s| % 2 == 0 && 2 * g + 2 <= |s| && EqualTo(s, t, 2 * g + 2)
    requires Topological(NetOf(s), inputs) && Topological(NetOf(t), inputs)
    ensures Trivial(NetOf(s), inputs, g) == Trivial(NetOf(t), inputs, g)
  {
    NetAgrees(s, t, g);
    forall row: nat | row < Pow2(inputs)
      ensures GateColumn(NetOf(s), inputs, g)[row] == GateColumn(NetOf(t), inputs, g)[row]
    {
      ValueOfPrefix(NetOf(s), NetOf(t), inputs, row, inputs + g);
    }
    assert GateColumn(NetOf(s), inputs, g) == GateColumn(NetOf(t), inputs, g);
  }

  lemma NotNotInPrefix(s: seq<nat>, t: seq<nat>, inputs: nat, n: nat)
    requires |s| == |t| && |s| % 2 == 0 && 2 * n + 2 <= |s| && EqualTo(s, t, 2 * n + 2)
    requires Topological(NetOf(s), inputs) && Topological(NetOf(t), inputs)
    ensures NotNot(NetOf(s), inputs, n) == NotNot(NetOf(t), inputs, n)
  {
    NetAgrees(s, t, n);
    assert NetOf(s)[n].a < inputs + n;
  }

  lemma RejectTrivial(inputs: nat, gates: nat, cur: seq<nat>, g: nat)
    requires |cur| == 2 * gates && g < gates && InRange(cur, inputs)
    requires Topological(NetOf(cur), inputs) && Trivial(NetOf(cur), inputs, g)
    ensures forall s :: Acceptable(s, inputs, gates) ==> !EqualTo(s, cur, 2 * g + 2)
  {
    forall s | Acceptable(s, inputs, gates)
      ensures !EqualTo(s, cur, 2 * g + 2)
    {
      if EqualTo(s, cur, 2 * g + 2) {
        RangeIsTopological(s, inputs);
        TrivialInPrefix(s, cur, inputs, g);
        assert false;
      }
    }
  }

  lemma RejectSwap(inputs: nat, gates: nat, cur: seq<nat>, m: nat, n: nat)
    requires |cur| == 2 * gates && m < n < gates && SwapsBefore(NetOf(cur), inputs, m, n)
    ensures forall s :: Acceptable(s, inputs, gates) ==> !EqualTo(s, cur, 2 * n + 2)
  {
    forall s | Acceptable(s, inputs, gates)
      ensures !EqualTo(s, cur, 2 * n + 2)
    {
      if EqualTo(s, cur, 2 * n + 2) {
        NetAgrees(s, cur, n);
        assert SwapsBefore(NetOf(s), inputs, m, n);
        assert false;
      }
    }
  }

  lemma RejectUnordered(inputs: nat, gates: nat, cur: seq<nat>, n: nat)
    requires |cur| == 2 * gates && n < gates && cur[2 * n] > cur[2 * n + 1]
    ensures forall s :: Acceptable(s, inputs, gates) ==> !EqualTo(s, cur, 2 * n + 2)
  {
    forall s | Acceptable(s, inputs, gates)
      ensures !EqualTo(s, cur, 2 * n + 2)
    {
      assert NetOf(s)[n].a <= NetOf(s)[n].b;
    }
  }

  lemma RejectNotNot(inputs: nat, gates: nat, cur: seq<nat>, n: nat)
    requires |cur| == 2 * gates && n < gates
    requires Topological(NetOf(cur), inputs) && NotNot(NetOf(cur), inputs, n)
    ensures forall s :: Acceptable(s, inputs, gates) ==> !EqualTo(s, cur, 2 * n + 2)
  {
    forall s | Acceptable(s, inputs, gates)
      ensures !EqualTo(s, cur, 2 * n + 2)
    {
      if EqualTo(s, cur, 2 * n + 2) {
        RangeIsTopological(s, inputs);
        NotNotInPrefix(s, cur, inputs, n);
        assert false;
      }
    }
  }

  lemma RejectDuplicate(inputs: nat, gates: nat, cur: seq<nat>, m: nat, n: nat)
    requires |cur| == 2 * gates && m < n < gates && NetOf(cur)[m] == NetOf(cur)[n]
    ensures forall s :: Acceptable(s, inputs, gates) ==> !EqualTo(s, cur, 2 * n + 2)
  {
    forall s | Acceptable(s, inputs, gates)
      ensures !EqualTo(s, cur, 2 * n + 2)
    {
      if EqualTo(s, cur, 2 * n + 2) {
        NetAgrees(s, cur, n);
        assert false;
      }
    }
  }

  /** Raising the last place to a value that is not the missing input leaves it missing. */
  lemma RejectUnused(inputs: nat, gates: nat, cur: seq<nat>, i: nat, v: nat)
    requires |cur| == 2 * gates > 0 && i < inputs && i !in cur && v != i
    ensures forall s :: Acceptable(s, inputs, gates) ==> !EqualTo(s, cur[2 * gates - 1 := v], 2 * gates)
  {
    forall s | Acceptable(s, inputs, gates)
      ensures !EqualTo(s, cur[2 * gates - 1 := v], 2 * gates)
    {
      assert InputRead(s, i);
      var p :| 0 <= p < |s| && s[p] == i;
      assert cur[p] != i;
    }
  }

  /** One step of the last place, nothing in scope lying in between. */
  lemma StepLast(found: seq<seq<nat>>, inputs: nat, gates: nat, prefix: seq<nat>, cur: seq<nat>)
    requires gates > 0 && FoundBelow(found, inputs, gates, prefix, cur)
    requires forall s :: InScope(s, inputs, gates, prefix) ==> !EqualTo(s, cur, 2 * gates)
    ensures FoundBelow(found, inputs, gates, prefix, cur[2 * gates - 1 := cur[2 * gates - 1] + 1])
  {
    JumpOverPrefix(found, inputs, gates, prefix, cur, 2 * gates);
    Advanced(found, inputs, gates, prefix, cur, 2 * gates - 1, cur[2 * gates - 1 := cur[2 * gates - 1] + 1]);
  }

  /** Every later value of the last place is rejected too. */
  lemma JumpOverRest(found: seq<seq<nat>>, inputs: nat, gates: nat, prefix: seq<nat>, cur: seq<nat>)
    requires gates > 0 && FoundBelow(found, inputs, gates, prefix, cur)
    requires forall s :: InScope(s, inputs, gates, prefix) && EqualTo(s, cur, 2 * gates - 1) ==>
      s[2 * gates - 1] < cur[2 * gates - 1]
    ensures FoundThrough(found, inputs, gates, prefix, cur, 2 * gates - 1)
  {
    forall s | InScope(s, inputs, gates, prefix)
      ensures s in found <==> LessEq(s, cur, 2 * gates - 1)
    {
      LessExtends(s, cur, 2 * gates - 1, 2 * gates);
    }
  }

  lemma RejectUnusedFrom(inputs: nat, gates: nat, cur: seq<nat>, i: nat)
    requires |cur| == 2 * gates > 0 && i < inputs && forall p :: 0 <= p < 2 * gates - 1 ==> cur[p] != i
    ensures forall s :: Acceptable(s, inputs, gates) && EqualTo(s, cur, 2 * gates - 1) ==> s[2 * gates - 1] == i
  {
    forall s | Acceptable(s, inputs, gates) && EqualTo(s, cur, 2 * gates - 1)
      ensures s[2 * gates - 1] == i
    {
      assert InputRead(s, i);
      var p :| 0 <= p < |s| && s[p] == i;
    }
  }

  lemma RejectMissing(inputs: nat, gates: nat, cur: seq<nat>, i: nat)
    requires |cur| == 2 * gates && i < inputs && i !in cur
    ensures forall s :: Acceptable(s, inputs, gates) ==> !EqualTo(s, cur, 2 * gates)
  {
    forall s | Acceptable(s, inputs, gates)
      ensures !EqualTo(s, cur, 2 * gates)
    {
      assert InputRead(s, i);
    }
  }

  /** Past the inputs, no value of the last place supplies the missing input. */
  lemma JumpOverGateSources(found: seq<seq<nat>>, inputs: nat, gates: nat, prefix: seq<nat>, cur: seq<nat>, i: nat)
    requires gates > 0 && FoundBelow(found, inputs, gates, prefix, cur)
    requires i < inputs <= cur[2 * gates - 1] && i !in cur
    ensures FoundThrough(found, inputs, gates, prefix, cur, 2 * gates - 1)
  {
    RejectUnusedFrom(inputs, gates, cur, i);
    JumpOverRest(found, inputs, gates, prefix, cur);
  }

  // ---- The state at the head of the main loop ----

  /** Pairs are distinct, and a NOT of a NOT can only be the second gate, where it copies an
      input. */
  ghost predicate Screened(cur: seq<nat>, inputs: nat) {
    && |cur| % 2 == 0 && InRange(cur, inputs) && Topological(NetOf(cur), inputs)
    && DistinctPairs(NetOf(cur))
    && forall n: nat :: n < |cur| / 2 && NotNot(NetOf(cur), inputs, n) ==> n == 1
  }

  lemma SecondNotNotIsTrivial(net: Net, inputs: nat)
    requires Topological(net, inputs) && |net| >= 2 && NotNot(net, inputs, 1)
    ensures Trivial(net, inputs, 1)
  {
    assert net[1].a < inputs + 1 && net[0].a < inputs;
    var c := GateColumn(net, inputs, 1);
    forall row | 0 <= row < |c|
      ensures c[row] == Bit(row, net[0].a)
    {
      assert Value(net, inputs, row, inputs) == !Bit(row, net[0].a);
    }
    assert CopyOf(c, net[0].a);
  }

  /** Writing a value nobody else holds into the last place keeps a state screened. */
  lemma FreshLastPlace(cur: seq<nat>, inputs: nat, v: nat)
    requires Screened(cur, inputs) && |cur| > 0 && v < inputs && v !in cur
    ensures Screened(cur[|cur| - 1 := v], inputs)
  {
    var next := cur[|cur| - 1 := v];
    var net, net' := NetOf(cur), NetOf(next);
    var last := |net| - 1;
    RangeIsTopological(next, inputs);
    assert forall g :: 0 <= g < last ==> net'[g] == net[g];
    assert net'[last].b == v;
    forall m, n | 0 <= m < n < |net'|
      ensures net'[m] != net'[n]
    {
      if n == last {
        assert net[m].b == cur[2 * m + 1];
      }
    }
    forall n: nat | n < |next| / 2 && NotNot(net', inputs, n)
      ensures n == 1
    {
      assert net'[n].a < inputs + n;
      assert NotNot(net, inputs, n);
    }
  }

  lemma PassesAllChecks(cur: seq<nat>, inputs: nat, gates: nat)
    requires |cur| == 2 * gates && Screened(cur, inputs) && AllInputsRead(cur, inputs)
    requires Canonical(NetOf(cur), inputs)
    requires forall g: nat :: g < gates ==> !Trivial(NetOf(cur), inputs, g)
    ensures Acceptable(cur, inputs, gates)
  {
    forall g: nat | g < gates
      ensures !NotNot(NetOf(cur), inputs, g)
    {
      if NotNot(NetOf(cur), inputs, g) {
        SecondNotNotIsTrivial(NetOf(cur), inputs);
      }
    }
  }

  // ---- The first state ----

  ghost predicate PairTaken(cur: seq<nat>, g: nat, a: nat, b: nat)
    requires 2 * g <= |cur|
  {
    exists m :: 0 <= m < g && cur[2 * m] == a && cur[2 * m + 1] == b
  }

  /** Gate `g` holds the least pair (0, k) that no earlier gate holds. */
  ghost predicate LeastFreePair(cur: seq<nat>, g: nat)
    requires 2 * g + 2 <= |cur|
  {
    cur[2 * g] == 0 && forall k: nat :: k < cur[2 * g + 1] ==> PairTaken(cur, g, 0, k)
  }

  /** Below a state of least free pairs there is nothing to find. */
  lemma FirstStateIsLeast(inputs: nat, gates: nat, prefix: seq<nat>, cur: seq<nat>)
    requires |cur| == 2 * gates && prefix <= cur
    requires |prefix| == if gates < 2 then 2 else 4
    requires forall g :: 2 <= g < gates ==> LeastFreePair(cur, g)
    ensures gates > 0 ==> FoundBelow([], inputs, gates, prefix, cur)
  {
    forall s | InScope(s, inputs, gates, prefix)
      ensures !Less(s, cur, 2 * gates)
    {
      if Less(s, cur, 2 * gates) {
        var d := FirstDifference(s, cur, 2 * gates);
        BelowFirstState(inputs, gates, prefix, cur, s, d);
        assert false;
      }
    }
  }

  lemma SharedPrefix(prefix: seq<nat>, s: seq<nat>, t: seq<nat>)
    requires prefix <= s && prefix <= t
    ensures EqualTo(s, t, |prefix|)
  {
    forall i | 0 <= i < |prefix|
      ensures s[i] == t[i]
    {
      assert prefix[i] == s[i] && prefix[i] == t[i];
    }
  }

  lemma BelowFirstState(inputs: nat, gates: nat, prefix: seq<nat>, cur: seq<nat>, s: seq<nat>, d: nat)
    requires |cur| == 2 * gates && prefix <= cur && prefix <= s && |s| == 2 * gates && d < 2 * gates
    requires |prefix| == if gates < 2 then 2 else 4
    requires forall g :: 2 <= g < gates ==> LeastFreePair(cur, g)
    requires EqualTo(s, cur, d) && s[d] < cur[d]
    ensures !Acceptable(s, inputs, gates)
  {
    SharedPrefix(prefix, s, cur);
    var g := d / 2;
    assert LeastFreePair(cur, g);
    assert d == 2 * g + 1;
    assert PairTaken(cur, g, 0, s[d]);
    var m :| 0 <= m < g && cur[2 * m] == 0 && cur[2 * m + 1] == s[d];
    assert NetOf(s)[m] == NetOf(s)[g];
  }

  // ---- Termination ----

  lemma Rises(s: seq<nat>, t: seq<nat>, inputs: nat, gates: nat)
    requires |s| == |t| == 2 * gates && InRange(s, inputs) && InRange(t, inputs) && gates > 0
    requires Less(s, t, 2 * gates)
    ensures Rank(s, inputs + gates, 2 * gates) < Rank(t, inputs + gates, 2 * gates) < Power(inputs + gates, 2 * gates)
  {
    forall p | 0 <= p < 2 * gates
      ensures s[p] < inputs + gates && t[p] < inputs + gates
    {
    }
    RankMonotone(s, t, inputs + gates, 2 * gates);
    RankBound(t, inputs + gates, 2 * gates);
  }

  lemma RisesFrom(last: seq<nat>, from: seq<nat>, next: seq<nat>, inputs: nat, gates: nat, k: nat)
    requires |last| == |from| == |next| == 2 * gates && k <= 2 * gates && gates > 0
    requires InRange(last, inputs) && InRange(next, inputs)
    requires EqualTo(last, from, k) && Less(from, next, k)
    ensures Rank(last, inputs + gates, 2 * gates) < Rank(next, inputs + gates, 2 * gates) < Power(inputs + gates, 2 * gates)
  {
    SamePrefix(next, from, last, k);
    LessExtends(last, next, k, 2 * gates);
    Rises(last, next, inputs, gates);
  }

  /** `before` is `from` with the places behind `pos` overwritten, `next` the refilled
      increment, `last` the state that `from` agrees with on the `k` places dealt with. */
  lemma IncrementRises(last: seq<nat>, from: seq<nat>, before: seq<nat>, next: seq<nat>, inputs: nat, gates: nat,
                       pos: nat, k: nat)
    requires |last| == |from| == |before| == |next| == 2 * gates && pos < k <= 2 * gates
    requires InRange(last, inputs) && InRange(next, inputs)
    requires EqualTo(last, from, k) && EqualTo(from, before, pos + 1) && Refilled(next, before, pos)
    ensures Rank(last, inputs + gates, 2 * gates) < Rank(next, inputs + gates, 2 * gates)
      < Power(inputs + gates, 2 * gates)
  {
    LessWitness(from, next, pos, k);
    RisesFrom(last, from, next, inputs, gates, k);
  }

  lemma LastPlaceRaised(s: seq<nat>, t: seq<nat>, inputs: nat, gates: nat)
    requires |s| == |t| == 2 * gates && InRange(s, inputs) && InRange(t, inputs) && gates > 0
    requires EqualTo(s, t, 2 * gates - 1) && s[2 * gates - 1] <= t[2 * gates - 1]
    ensures Rank(s, inputs + gates, 2 * gates) <= Rank(t, inputs + gates, 2 * gates)
  {
    if s[2 * gates - 1] == t[2 * gates - 1] {
      assert s == t;
    } else {
      LessWitness(s, t, 2 * gates - 1, 2 * gates);
      Rises(s, t, inputs, gates);
    }
  }

  /** The gates below `n` hold distinct pairs, those after the first two the least free ones. */
  ghost predicate Adjusted(cur: seq<nat>, n: nat)
    requires |cur| % 2 == 0 && 2 * n <= |cur|
  {
    && (forall g :: 2 <= g < n ==> LeastFreePair(cur, g))
    && (forall i, j :: 0 <= i < j < n ==> NetOf(cur)[i] != NetOf(cur)[j])
  }

  lemma AdjustedSame(cur: seq<nat>, next: seq<nat>, n: nat)
    requires |cur| == |next| && |cur| % 2 == 0 && 2 * n <= |cur| && EqualTo(cur, next, 2 * n)
    requires Adjusted(cur, n)
    ensures Adjusted(next, n)
  {
    forall g | 2 <= g < n
      ensures LeastFreePair(next, g)
    {
      assert LeastFreePair(cur, g);
      forall k: nat | k < next[2 * g + 1]
        ensures PairTaken(next, g, 0, k)
      {
        assert PairTaken(cur, g, 0, k);
      }
    }
    assert forall i :: 0 <= i < n ==> NetOf(next)[i] == NetOf(cur)[i];
  }
}
