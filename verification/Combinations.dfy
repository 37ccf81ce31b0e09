/** The lists of output gates that BuildCombinations prepares, and how many there are. */
module Combinations {
  import opened Bits
  import opened LexOrder
  import opened Lists

  /** An output list: the mask of its gates and the gates in increasing order. */
  datatype Combination = Combination(mask: set<nat>, outputs: seq<nat>)

  ghost predicate IsChoice(s: seq<nat>, n: nat, k: nat) {
    |s| == k && Climbs(s) && forall i :: 0 <= i < k ==> s[i] < n
  }

  /** Every choice leaves room for the places behind it. */
  lemma ChoiceRoom(s: seq<nat>, n: nat, k: nat, o: nat)
    requires IsChoice(s, n, k) && o < k
    ensures s[o] + (k - 1 - o) < n
    decreases k - o
  {
    if o + 1 < k {
      ChoiceRoom(s, n, k, o + 1);
    }
  }

  // ---- Progress of the enumeration ----

  ghost predicate Rising(found: seq<seq<nat>>, k: nat) {
    && (forall i :: 0 <= i < |found| ==> |found[i]| == k)
    && (forall i, j :: 0 <= i < j < |found| ==> Less(found[i], found[j], k))
  }

  ghost predicate OnlyChoices(found: seq<seq<nat>>, n: nat, k: nat) {
    Rising(found, k) && forall s :: s in found ==> IsChoice(s, n, k)
  }

  ghost predicate FoundBelow(found: seq<seq<nat>>, n: nat, k: nat, cur: seq<nat>) {
    |cur| == k && OnlyChoices(found, n, k) && forall s :: IsChoice(s, n, k) ==> (s in found <==> Less(s, cur, k))
  }

  ghost predicate FoundThrough(found: seq<seq<nat>>, n: nat, k: nat, cur: seq<nat>, places: nat) {
    && |cur| == k && places <= k && OnlyChoices(found, n, k)
    && forall s :: IsChoice(s, n, k) ==> (s in found <==> LessEq(s, cur, places))
  }

  ghost predicate FoundAll(found: seq<seq<nat>>, n: nat, k: nat) {
    OnlyChoices(found, n, k) && forall s :: IsChoice(s, n, k) ==> s in found
  }

  lemma Accept(found: seq<seq<nat>>, n: nat, k: nat, cur: seq<nat>)
    requires FoundBelow(found, n, k, cur) && IsChoice(cur, n, k)
    ensures FoundThrough(found + [cur], n, k, cur, k)
  {
    var more := found + [cur];
    forall i, j | 0 <= i < j < |more|
      ensures Less(more[i], more[j], k)
    {
      if j == |found| {
        assert found[i] in found;
      }
    }
    forall s | IsChoice(s, n, k)
      ensures s in more <==> LessEq(s, cur, k)
    {
      if EqualTo(s, cur, k) {
        assert s == cur;
      }
    }
  }

  lemma SamePlaces(s: seq<nat>, t: seq<nat>, u: seq<nat>, places: nat)
    requires places <= |s| && places <= |t| && places <= |u| && EqualTo(t, u, places)
    ensures LessEq(s, t, places) == LessEq(s, u, places) && Less(s, t, places) == Less(s, u, places)
  {
    if places > 0 {
      SamePlaces(s, t, u, places - 1);
    }
  }

  /** Place `o` has reached its maximum. */
  lemma WrapPlace(found: seq<seq<nat>>, n: nat, k: nat, cur: seq<nat>, next: seq<nat>, o: nat)
    requires o < k && FoundThrough(found, n, k, cur, o + 1) && cur[o] + 1 + (k - 1 - o) >= n
    requires |next| == k && EqualTo(cur, next, o)
    ensures FoundThrough(found, n, k, next, o)
  {
    forall s | IsChoice(s, n, k)
      ensures s in found <==> LessEq(s, next, o)
    {
      ChoiceRoom(s, n, k, o);
      SamePlaces(s, cur, next, o);
    }
  }

  /** `next` raises place `o` and continues with consecutive gates. */
  ghost predicate Continued(next: seq<nat>, cur: seq<nat>, o: nat)
    requires o < |cur|
  {
    && |next| == |cur| && EqualTo(cur, next, o) && next[o] == cur[o] + 1
    && forall i :: o < i < |cur| ==> next[i] == next[o] + (i - o)
  }

  lemma ContinuedIsLeast(s: seq<nat>, next: seq<nat>, cur: seq<nat>, n: nat, k: nat, o: nat, places: nat)
    requires IsChoice(s, n, k) && o < places <= k == |cur| && Continued(next, cur, o)
    ensures Less(s, next, places) <==> LessEq(s, cur, o + 1)
    decreases places
  {
    if places == o + 1 {
      SamePlaces(s, cur, next, o);
    } else {
      ContinuedIsLeast(s, next, cur, n, k, o, places - 1);
      if EqualTo(s, next, places - 1) {
        assert s[places - 2] == next[places - 2] && s[places - 2] < s[places - 1];
      }
    }
  }

  lemma StepOn(found: seq<seq<nat>>, n: nat, k: nat, cur: seq<nat>, next: seq<nat>, o: nat)
    requires o < k && FoundThrough(found, n, k, cur, o + 1) && Continued(next, cur, o)
    ensures FoundBelow(found, n, k, next) && Less(cur, next, k)
  {
    forall s | IsChoice(s, n, k)
      ensures s in found <==> Less(s, next, k)
    {
      ContinuedIsLeast(s, next, cur, n, k, o, k);
    }
    LessWitness(cur, next, o, k);
  }

  lemma FirstChoice(n: nat, k: nat, first: seq<nat>)
    requires |first| == k <= n && forall i :: 0 <= i < k ==> first[i] == i
    ensures IsChoice(first, n, k) && FoundBelow([], n, k, first)
  {
    forall s | IsChoice(s, n, k)
      ensures !Less(s, first, k)
    {
      if Less(s, first, k) {
        var d := FirstDifference(s, first, k);
        ChoiceAtLeast(s, n, k, d);
      }
    }
  }

  lemma ChoiceAtLeast(s: seq<nat>, n: nat, k: nat, i: nat)
    requires IsChoice(s, n, k) && i < k
    ensures s[i] >= i
  {
    if i > 0 {
      ChoiceAtLeast(s, n, k, i - 1);
    }
  }

  // ---- The program ----

  ghost function OutputLists(target: seq<Combination>): (lists: seq<seq<nat>>)
    ensures |lists| == |target| && forall i :: 0 <= i < |target| ==> lists[i] == target[i].outputs
  {
    seq(|target|, i requires 0 <= i < |target| => target[i].outputs)
  }

  ghost function Elements(s: seq<nat>): set<nat> {
    set x | x in s
  }

  ghost predicate MasksRight(target: seq<Combination>) {
    forall i :: 0 <= i < |target| ==> target[i].mask == Elements(target[i].outputs)
  }

  method MaskOf(outputs: array<nat>) returns (mask: set<nat>)
    ensures mask == Elements(outputs[..])
  {
    mask := {};
    var i := 0;
    while i < outputs.Length
      invariant i <= outputs.Length && mask == Elements(outputs[..i])
    {
      assert outputs[..i + 1] == outputs[..i] + [outputs[i]];
      mask := mask + {outputs[i]};
      i := i + 1;
    }
    assert outputs[..i] == outputs[..];
  }

  /** Raises the last place that can be raised; consecutive gates follow it. */
  method NextChoice(outputs: array<nat>, n: nat, ghost found: seq<seq<nat>>) returns (more: bool)
    requires 0 < outputs.Length <= n && IsChoice(outputs[..], n, outputs.Length)
    requires FoundThrough(found, n, outputs.Length, outputs[..], outputs.Length)
    modifies outputs
    ensures !more ==> FoundAll(found, n, outputs.Length)
    ensures more ==> IsChoice(outputs[..], n, outputs.Length) && FoundBelow(found, n, outputs.Length, outputs[..])
    ensures more ==> Less(old(outputs[..]), outputs[..], outputs.Length)
  {
    var k := outputs.Length;
    var o: nat := k - 1;
    ghost var start := outputs[..];
    ghost var cur := outputs[..];
    while true
      invariant o < k && cur == outputs[..] && EqualTo(start, cur, o + 1)
      invariant FoundThrough(found, n, k, cur, o + 1)
      decreases o
    {
      var maxValue := n - ((k - 1) - o);
      outputs[o] := outputs[o] + 1;
      if outputs[o] < maxValue {
        break;
      }
      WrapPlace(found, n, k, cur, outputs[..], o);
      if o == 0 {
        return false;
      }
      o := o - 1;
      cur := outputs[..];
    }
    ghost var at := o;
    while o + 1 < k
      invariant at <= o < k && EqualTo(cur, outputs[..], at) && outputs[at] == cur[at] + 1
      invariant forall i :: at < i <= o ==> outputs[i] == outputs[at] + (i - at)
    {
      outputs[o + 1] := outputs[o] + 1;
      o := o + 1;
    }
    ghost var next := outputs[..];
    assert Continued(next, cur, at);
    StepOn(found, n, k, cur, next, at);
    SamePlaces(next, start, cur, at);
    LessWitness(start, next, at, k);
    ContinuedIsChoice(start, next, n, k, at);
    more := true;
  }

  lemma ContinuedIsChoice(start: seq<nat>, next: seq<nat>, n: nat, k: nat, o: nat)
    requires IsChoice(start, n, k) && o < k && Continued(next, start, o) && next[o] + (k - 1 - o) < n
    ensures IsChoice(next, n, k)
  {
    forall i, j | 0 <= i < j < k
      ensures next[i] < next[j]
    {
      if i < o <= j {
        assert start[i] < start[o];
      }
    }
    forall i | 0 <= i < k
      ensures next[i] < n
    {
    }
  }

  /** The combinations for `n` gates and `k` outputs: every choice once, in lexicographic
      order, each with the mask of its gates. */
  method BuildCombinations(n: nat, k: nat) returns (target: seq<Combination>)
    requires 0 < k <= n
    ensures FoundAll(OutputLists(target), n, k) && MasksRight(target)
    ensures |target| == Choose(n, k)
  {
    target := [];
    var outputs := new nat[k](i => i);
    assert OutputLists(target) == [];
    FirstChoice(n, k, outputs[..]);
    var more := true;
    while more
      invariant more ==> IsChoice(outputs[..], n, k) && FoundBelow(OutputLists(target), n, k, outputs[..])
      invariant !more ==> FoundAll(OutputLists(target), n, k)
      invariant MasksRight(target)
      decreases more, if more then Power(n, k) - Rank(outputs[..], n, k) else 0
    {
      ghost var before := OutputLists(target);
      ghost var start := outputs[..];
      var mask := MaskOf(outputs);
      target := target + [Combination(mask, outputs[..])];
      Accept(before, n, k, start);
      assert OutputLists(target) == before + [start];
      more := NextChoice(outputs, n, before + [start]);
      if more {
        RankMonotone(start, outputs[..], n, k);
        RankBound(outputs[..], n, k);
      }
    }
    CountChoices(OutputLists(target), n, k);
  }

  // ---- Their number ----

  function Choose(n: nat, k: nat): nat {
    if k == 0 then 1 else if n == 0 then 0 else Choose(n - 1, k) + Choose(n - 1, k - 1)
  }

  ghost function AppendAll(choices: set<seq<nat>>, last: nat): set<seq<nat>> {
    set s | s in choices :: s + [last]
  }

  lemma AppendAllMember(choices: set<seq<nat>>, last: nat, t: seq<nat>)
    ensures t in AppendAll(choices, last) <==> t != [] && t[|t| - 1] == last && t[..|t| - 1] in choices
  {
    if t in AppendAll(choices, last) {
      var s :| s in choices && t == s + [last];
      assert t[..|t| - 1] == s;
    }
    if t != [] && t[|t| - 1] == last && t[..|t| - 1] in choices {
      assert t == t[..|t| - 1] + [last];
    }
  }

  lemma {:induction false} AppendAllCount(choices: set<seq<nat>>, last: nat)
    ensures |AppendAll(choices, last)| == |choices|
    decreases |choices|
  {
    if choices == {} {
      assert AppendAll(choices, last) == {};
    } else {
      var s :| s in choices;
      AppendAllCount(choices - {s}, last);
      forall t
        ensures t in AppendAll(choices, last) <==> t in AppendAll(choices - {s}, last) || t == s + [last]
      {
        AppendAllMember(choices, last, t);
        AppendAllMember(choices - {s}, last, t);
        if t != [] {
          assert t == t[..|t| - 1] + [t[|t| - 1]];
        }
        assert (s + [last])[..|s|] == s;
      }
      assert AppendAll(choices, last) == AppendAll(choices - {s}, last) + {s + [last]};
      AppendAllMember(choices - {s}, last, s + [last]);
      assert (s + [last])[..|s|] == s;
    }
  }

  /** The choices as a set: those without the last gate, and those with it. */
  ghost function Choices(n: nat, k: nat): set<seq<nat>> {
    if k == 0 then {[]} else if n == 0 then {} else Choices(n - 1, k) + AppendAll(Choices(n - 1, k - 1), n - 1)
  }

  lemma ChoiceSplits(s: seq<nat>, n: nat, k: nat)
    requires n > 0 && k > 0
    ensures IsChoice(s, n, k) <==>
      IsChoice(s, n - 1, k) || (|s| == k && s[k - 1] == n - 1 && IsChoice(s[..k - 1], n - 1, k - 1))
  {
    if |s| == k {
      var front := s[..k - 1];
      assert s == front + [s[k - 1]];
      if IsChoice(s, n, k) {
        assert forall i :: 0 <= i < k - 1 ==> s[i] < s[k - 1];
      }
    }
  }

  lemma {:induction false} ChoicesAreChoices(n: nat, k: nat, s: seq<nat>)
    ensures s in Choices(n, k) <==> IsChoice(s, n, k)
    decreases n
  {
    if k == 0 {
    } else if n == 0 {
      if |s| == k {
        assert !(s[0] < n);
      }
    } else {
      ChoicesAreChoices(n - 1, k, s);
      ChoiceSplits(s, n, k);
      AppendAllMember(Choices(n - 1, k - 1), n - 1, s);
      if s != [] {
        ChoicesAreChoices(n - 1, k - 1, s[..|s| - 1]);
      }
    }
  }

  lemma LastGateTells(n: nat, k: nat)
    ensures Choices(n, k + 1) !! AppendAll(Choices(n, k), n)
  {
    var without, appended := Choices(n, k + 1), AppendAll(Choices(n, k), n);
    forall s | s in without
      ensures s !in appended
    {
      ChoicesAreChoices(n, k + 1, s);
      AppendAllMember(Choices(n, k), n, s);
    }
  }

  lemma {:induction false} ChoicesCount(n: nat, k: nat)
    ensures |Choices(n, k)| == Choose(n, k)
    decreases n
  {
    if k == 0 {
      assert Choices(n, k) == {[]};
    } else if n > 0 {
      var m, j: nat := n - 1, k - 1;
      ChoicesCount(m, k);
      ChoicesCount(m, j);
      AppendAllCount(Choices(m, j), m);
      LastGateTells(m, j);
      DisjointCount(Choices(m, k), AppendAll(Choices(m, j), m));
    }
  }

  lemma DisjointCount<T>(a: set<T>, b: set<T>)
    requires a !! b
    ensures |a + b| == |a| + |b|
  {
  }

  lemma CountChoices(found: seq<seq<nat>>, n: nat, k: nat)
    requires FoundAll(found, n, k)
    ensures |found| == Choose(n, k)
  {
    forall s
      ensures s in found <==> s in Choices(n, k)
    {
      ChoicesAreChoices(n, k, s);
    }
    forall i, j | 0 <= i < j < |found|
      ensures found[i] != found[j]
    {
      Trichotomy(found[i], found[j], k);
    }
    DistinctCount(found, Choices(n, k));
    ChoicesCount(n, k);
  }

  // ---- The closed form ----

  function Factorial(n: nat): (f: nat)
    ensures f > 0
  {
    if n == 0 then 1 else n * Factorial(n - 1)
  }

  /** a * (a + 1) * ... * b */
  function Product(a: nat, b: nat): nat
    requires a <= b
    decreases b - a
  {
    if a == b then a else Product(a, b - 1) * b
  }

  /** The inner loop of binomial. */
  method ProductLoop(a: nat, b: nat) returns (result: nat)
    requires a <= b
    ensures result == Product(a, b)
  {
    result := a;
    var t := a + 1;
    while t <= b
      invariant a < t <= b + 1 && result == Product(a, t - 1)
    {
      result := result * t;
      t := t + 1;
    }
  }

  lemma {:induction false} ProductIsQuotient(a: nat, b: nat)
    requires 0 < a <= b
    ensures Product(a, b) * Factorial(a - 1) == Factorial(b)
    decreases b - a
  {
    if a < b {
      ProductIsQuotient(a, b - 1);
      Rearrange(Product(a, b - 1), b, Factorial(a - 1));
    }
  }

  lemma Rearrange(x: nat, y: nat, z: nat)
    ensures (x * y) * z == y * (x * z)
  {
  }

  lemma ChooseOutside(n: nat, k: nat)
    requires n < k
    ensures Choose(n, k) == 0
  {
  }

  lemma ChooseAll(n: nat)
    ensures Choose(n, n) == 1
  {
    if n > 0 {
      ChooseOutside(n - 1, n);
    }
  }

  lemma {:induction false} ChooseFactorials(n: nat, k: nat)
    requires k <= n
    ensures Choose(n, k) * (Factorial(k) * Factorial(n - k)) == Factorial(n)
    decreases n
  {
    if k == 0 {
    } else if k == n {
      ChooseAll(n);
    } else {
      ChooseFactorials(n - 1, k);
      ChooseFactorials(n - 1, k - 1);
      PascalStep(Choose(n - 1, k), Choose(n - 1, k - 1), Factorial(k - 1), Factorial(n - k - 1), k, n - k,
                 Factorial(n - 1));
    }
  }

  lemma PascalStep(c: nat, d: nat, f: nat, g: nat, k: nat, m: nat, h: nat)
    requires c * ((k * f) * g) == h && d * (f * (m * g)) == h
    ensures (c + d) * ((k * f) * (m * g)) == (k + m) * h
  {
    calc {
      (c + d) * ((k * f) * (m * g));
      c * ((k * f) * (m * g)) + d * ((k * f) * (m * g));
      { Shuffle(c, k * f, m, g); Shuffle2(d, k, f, m * g); }
      m * (c * ((k * f) * g)) + k * (d * (f * (m * g)));
      m * h + k * h;
    }
  }

  lemma Shuffle(c: nat, x: nat, m: nat, g: nat)
    ensures c * (x * (m * g)) == m * (c * (x * g))
  {
    assert x * (m * g) == m * (x * g);
    Rearrange(c, m, x * g);
    assert c * (m * (x * g)) == (c * m) * (x * g);
  }

  lemma Shuffle2(d: nat, k: nat, f: nat, y: nat)
    ensures d * ((k * f) * y) == k * (d * (f * y))
  {
    assert (k * f) * y == k * (f * y);
    assert d * (k * (f * y)) == (d * k) * (f * y);
    Rearrange(d, k, f * y);
  }

  /** The integer binomial: the division is exact. */
  method Binomial(n: nat, k0: nat) returns (result: nat)
    requires k0 <= n
    ensures result == Choose(n, k0)
  {
    var k := if k0 <= n - k0 then k0 else n - k0;
    ChooseSymmetric(n, k0);
    if k == 0 {
      return 1;
    }
    if k == 1 {
      ChooseOne(n);
      return n;
    }
    var numerator := ProductLoop(n - k + 1, n);
    var denominator := ProductLoop(2, k);
    ClosedForm(n, k);
    ExactQuotient(numerator, denominator, Choose(n, k));
    result := numerator / denominator;
  }

  lemma ExactQuotient(x: nat, d: nat, q: nat)
    requires d > 0 && x == q * d
    ensures x / d == q
  {
    QuotientUnique(x, d, q, 0);
  }

  lemma ChooseOne(n: nat)
    ensures Choose(n, 1) == n
  {
  }

  lemma ChooseSymmetric(n: nat, k: nat)
    requires k <= n
    ensures Choose(n, k) == Choose(n, n - k)
  {
    ChooseFactorials(n, k);
    ChooseFactorials(n, n - k);
    var f := Factorial(k) * Factorial(n - k);
    assert f == Factorial(n - k) * Factorial(k);
    assert f > 0;
    CancelFactor(Choose(n, k), Choose(n, n - k), f);
  }

  lemma CancelFactor(x: nat, y: nat, f: nat)
    requires f > 0 && x * f == y * f
    ensures x == y
  {
    ExactQuotient(x * f, f, x);
    ExactQuotient(y * f, f, y);
  }

  lemma ClosedForm(n: nat, k: nat)
    requires 2 <= k <= n - k
    ensures Product(2, k) > 0 && Product(n - k + 1, n) == Choose(n, k) * Product(2, k)
  {
    ProductIsQuotient(2, k);
    OneFactor(Product(2, k));
    ProductIsQuotient(n - k + 1, n);
    ChooseFactorials(n, k);
    CancelFactorial(Product(n - k + 1, n), Choose(n, k), Factorial(k), Factorial(n - k));
  }

  lemma OneFactor(x: nat)
    ensures x * Factorial(1) == x
  {
    assert Factorial(0) == 1 && Factorial(1) == 1;
  }

  lemma CancelFactorial(p: nat, c: nat, f: nat, g: nat)
    requires g > 0 && p * g == c * (f * g)
    ensures p == c * f
  {
    assert c * (f * g) == (c * f) * g;
    CancelFactor(p, c * f, g);
  }
}
