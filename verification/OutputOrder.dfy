/** The output ordering of SaveOrIgnoreResult in nandcombinator.cc: an insertion sort of the
    truth tables, largest first, that gives up when two are the same. Tables are compared
    word by word from the top, by the sign of a wrapped 32-bit difference. */
module OutputOrder {
  import opened BitStream
  import opened Wrappers

  type Words = seq<nat>

  ghost predicate IsTable(a: Words, words: nat) {
    |a| == words && forall w :: 0 <= w < words ==> a[w] < 0x1_0000_0000
  }

  /** Words below 2^31, for which the wrapped difference has the sign of the true one. */
  ghost predicate Small(a: Words) {
    forall w :: 0 <= w < |a| ==> a[w] < 0x8000_0000
  }

  /** `int comp = a - b` for 32-bit unsigned `a` and `b`. */
  function WrappedDifference(a: nat, b: nat): int {
    var d := a - b;
    if d >= 0x8000_0000 then d - 0x1_0000_0000
    else if d < -0x8000_0000 then d + 0x1_0000_0000
    else d
  }

  /** The comparison of the first `n` words, highest word first. */
  function Compare(a: Words, b: Words, n: nat): int
    requires n <= |a| && n <= |b|
  {
    if n == 0 then 0
    else if WrappedDifference(a[n - 1], b[n - 1]) != 0 then WrappedDifference(a[n - 1], b[n - 1])
    else Compare(a, b, n - 1)
  }

  // ---- The sort as a function ----

  ghost predicate IsFamily(results: seq<Words>, words: nat) {
    forall i :: 0 <= i < |results| ==> IsTable(results[i], words)
  }

  ghost predicate Indices(order: seq<nat>, results: seq<Words>) {
    forall i :: 0 <= i < |order| ==> order[i] < |results|
  }

  /** Inserting `x` into an order, from the back. */
  function InsertInto(results: seq<Words>, words: nat, order: seq<nat>, x: nat): (r: Option<seq<nat>>)
    requires IsFamily(results, words) && Indices(order, results) && x < |results|
    ensures r.Some? ==> |r.value| == |order| + 1 && Indices(r.value, results)
  {
    if order == [] then Some([x])
    else
      var last := |order| - 1;
      var comp := Compare(results[order[last]], results[x], words);
      if comp == 0 then None
      else if comp > 0 then Some(order + [x])
      else
        var r := InsertInto(results, words, order[..last], x);
        if r == None then None else Some(r.value + [order[last]])
  }

  function SortFirst(results: seq<Words>, words: nat, k: nat): (r: Option<seq<nat>>)
    requires IsFamily(results, words) && k <= |results|
    ensures r.Some? ==> |r.value| == k && Indices(r.value, results)
  {
    if k == 0 then Some([])
    else
      var r := SortFirst(results, words, k - 1);
      if r == None then None else InsertInto(results, words, r.value, k - 1)
  }

  // ---- The sort as the program runs it ----

  method CompareTables(a: Words, b: Words, words: nat) returns (comp: int)
    requires words <= |a| && words <= |b|
    ensures comp == Compare(a, b, words)
  {
    comp := 0;
    var w: nat := words;
    while w > 0
      invariant w <= words && comp == 0 && Compare(a, b, words) == Compare(a, b, w)
    {
      w := w - 1;
      comp := WrappedDifference(a[w], b[w]);
      if comp != 0 {
        return;
      }
    }
  }

  method SortOutputs(results: seq<Words>, words: nat) returns (order: array<nat>, ok: bool)
    requires IsFamily(results, words)
    ensures fresh(order) && order.Length == |results|
    ensures ok == SortFirst(results, words, |results|).Some?
    ensures ok ==> order[..] == SortFirst(results, words, |results|).value
  {
    order := new nat[|results|](i => i);
    if |results| == 0 {
      return order, true;
    }
    assert SortFirst(results, words, 0) == Some([]);
    assert SortFirst(results, words, 1) == InsertInto(results, words, [], 0) == Some([0]);
    assert order[..1] == [0];
    var i: nat := 1;
    while i < |results|
      invariant 1 <= i <= |results|
      invariant SortFirst(results, words, i) == Some(order[..i])
      invariant forall k :: i <= k < |results| ==> order[k] == k
    {
      var tmp := order[i];
      ghost var sorted := order[..i];
      var inserted := Insert(results, words, order, i);
      if !inserted {
        SortFails(results, words, i + 1, |results|);
        return order, false;
      }
      i := i + 1;
    }
    assert order[..i] == order[..];
    ok := true;
  }

  /** Moves the element at `i` to its place among the first `i`, which are in order. */
  method Insert(results: seq<Words>, words: nat, order: array<nat>, i: nat) returns (inserted: bool)
    requires IsFamily(results, words) && i < order.Length && order[i] < |results| && Indices(order[..i], results)
    modifies order
    ensures inserted == InsertInto(results, words, old(order[..i]), old(order[i])).Some?
    ensures inserted ==> Some(order[..i + 1]) == InsertInto(results, words, old(order[..i]), old(order[i]))
    ensures forall k :: i < k < order.Length ==> order[k] == old(order[k])
  {
    hide InsertInto;
    var tmp := order[i];
    ghost var was := order[..];
    ghost var sorted := order[..i];
    var j := i;
    CarryStart(results, words, sorted, tmp);
    while j != 0
      invariant j <= i && Shifted(order[..], was, i, j)
      invariant Carried(results, words, sorted, j, tmp)
    {
      ghost var before := order[..];
      assert before[j - 1] == sorted[j - 1];
      var comp := CompareTables(results[order[j - 1]], results[tmp], words);
      CarryOn(results, words, sorted, j, tmp);
      if comp == 0 {
        FarKept(before, was, i, j);
        return false;
      }
      if comp > 0 {
        break;
      }
      order[j] := order[j - 1];
      assert order[..] == before[j := was[j - 1]];
      ShiftOn(before, was, i, j);
      j := j - 1;
    }
    ghost var before := order[..];
    order[j] := tmp;
    assert order[..] == before[j := tmp];
    FarKept(before, was, i, j);
    CarryEnd(results, words, sorted, j, tmp, order[..i + 1]);
    inserted := true;
  }

  /** The first `i` elements of `was` moved up from `j` on, over the one at `i`. */
  ghost predicate Shifted(all: seq<nat>, was: seq<nat>, i: nat, j: nat) {
    && j <= i < |was| == |all|
    && (forall k :: 0 <= k < j ==> all[k] == was[k])
    && (forall k :: j < k <= i ==> all[k] == was[k - 1])
    && (forall k :: i < k < |was| ==> all[k] == was[k])
  }

  lemma ShiftOn(all: seq<nat>, was: seq<nat>, i: nat, j: nat)
    requires 0 < j && Shifted(all, was, i, j)
    ensures Shifted(all[j := was[j - 1]], was, i, j - 1)
  {
  }

  lemma FarKept(all: seq<nat>, was: seq<nat>, i: nat, j: nat)
    requires Shifted(all, was, i, j)
    ensures forall k :: i < k < |was| ==> all[k] == was[k]
  {
  }

  lemma CarryEnd(results: seq<Words>, words: nat, order: seq<nat>, j: nat, x: nat, all: seq<nat>)
    requires IsFamily(results, words) && Indices(order, results) && x < |results| && j <= |order|
    requires Carried(results, words, order, j, x)
    requires j == 0 || Compare(results[order[j - 1]], results[x], words) > 0
    requires |all| == |order| + 1 && all[j] == x
    requires forall k :: 0 <= k < j ==> all[k] == order[k]
    requires forall k :: j < k <= |order| ==> all[k] == order[k - 1]
    ensures InsertInto(results, words, order, x) == Some(all)
  {
    if j == 0 {
      assert order[..0] == [] && order[..0] + [x] == [x];
    } else {
      CarryOn(results, words, order, j, x);
    }
    assert all == order[..j] + [x] + order[j..];
  }

  lemma CarryStart(results: seq<Words>, words: nat, order: seq<nat>, x: nat)
    requires IsFamily(results, words) && Indices(order, results) && x < |results|
    ensures Carried(results, words, order, |order|, x)
  {
    assert order[..|order|] == order && order[|order|..] == [];
    var part := InsertInto(results, words, order, x);
    assert InsertInto(results, words, order[..|order|], x) == part;
    if part.Some? {
      assert part.value + order[|order|..] == part.value;
    }
  }

  /** Inserting into the whole order comes down to inserting into its first `j` places. */
  ghost predicate Carried(results: seq<Words>, words: nat, order: seq<nat>, j: nat, x: nat)
    requires IsFamily(results, words) && Indices(order, results) && x < |results| && j <= |order|
  {
    var whole, part := InsertInto(results, words, order, x), InsertInto(results, words, order[..j], x);
    whole == if part == None then None else Some(part.value + order[j..])
  }

  lemma CarryOn(results: seq<Words>, words: nat, order: seq<nat>, j: nat, x: nat)
    requires IsFamily(results, words) && Indices(order, results) && x < |results| && 0 < j <= |order|
    requires Carried(results, words, order, j, x)
    ensures var comp := Compare(results[order[j - 1]], results[x], words);
      && (comp < 0 ==> Carried(results, words, order, j - 1, x))
      && (comp == 0 ==> InsertInto(results, words, order, x) == None)
      && (comp > 0 ==> InsertInto(results, words, order[..j], x) == Some(order[..j] + [x]))
  {
    assert order[..j][..j - 1] == order[..j - 1];
    assert order[j - 1..] == [order[j - 1]] + order[j..];
    var part := InsertInto(results, words, order[..j - 1], x);
    if part.Some? {
      Reassociate(part.value, [order[j - 1]], order[j..]);
    }
  }

  lemma SortFails(results: seq<Words>, words: nat, k: nat, n: nat)
    requires IsFamily(results, words) && k <= n <= |results| && SortFirst(results, words, k) == None
    ensures SortFirst(results, words, n) == None
    decreases n
  {
    if k < n {
      SortFails(results, words, k, n - 1);
    }
  }

  // ---- The comparison as an order ----

  ghost predicate Above(a: Words, b: Words, n: nat)
    requires n <= |a| && n <= |b|
  {
    Compare(a, b, n) > 0
  }

  ghost predicate SameTable(a: Words, b: Words, n: nat)
    requires n <= |a| && n <= |b|
  {
    forall w :: 0 <= w < n ==> a[w] == b[w]
  }

  lemma CompareZero(a: Words, b: Words, words: nat, n: nat)
    requires IsTable(a, words) && IsTable(b, words) && n <= words
    ensures Compare(a, b, n) == 0 <==> SameTable(a, b, n)
  {
    if n > 0 {
      CompareZero(a, b, words, n - 1);
    }
  }

  /** Below 2^31 the comparison is antisymmetric and transitive. */
  lemma CompareOpposite(a: Words, b: Words, words: nat, n: nat)
    requires IsTable(a, words) && IsTable(b, words) && Small(a) && Small(b) && n <= words
    ensures Compare(a, b, n) == -Compare(b, a, n)
  {
    if n > 0 {
      CompareOpposite(a, b, words, n - 1);
    }
  }

  lemma CompareTransitive(a: Words, b: Words, c: Words, words: nat, n: nat)
    requires IsTable(a, words) && IsTable(b, words) && IsTable(c, words) && n <= words
    requires Small(a) && Small(b) && Small(c) && Above(a, b, n) && Above(b, c, n)
    ensures Above(a, c, n)
  {
    if n > 0 {
      if a[n - 1] == b[n - 1] == c[n - 1] {
        CompareTransitive(a, b, c, words, n - 1);
      }
    }
  }

  /** Two tables are never above each other. */
  lemma NotBothAbove(a: Words, b: Words, words: nat, n: nat)
    requires IsTable(a, words) && IsTable(b, words) && n <= words && Above(a, b, n)
    ensures !Above(b, a, n)
  {
    if n > 0 && a[n - 1] == b[n - 1] {
      NotBothAbove(a, b, words, n - 1);
    }
  }

  // ---- The comparison without the wrap ----

  /** The unsigned comparison: the difference of the highest words that differ. */
  function Difference(a: Words, b: Words, n: nat): int
    requires n <= |a| && n <= |b|
  {
    if n == 0 then 0 else if a[n - 1] != b[n - 1] then a[n - 1] - b[n - 1] else Difference(a, b, n - 1)
  }

  /** A larger table is above exactly if the difference is below 2^31. */
  lemma AboveIffClose(a: Words, b: Words, words: nat, n: nat)
    requires IsTable(a, words) && IsTable(b, words) && n <= words && Difference(a, b, n) > 0
    ensures Above(a, b, n) <==> Difference(a, b, n) < 0x8000_0000
  {
    if n > 0 && a[n - 1] == b[n - 1] {
      AboveIffClose(a, b, words, n - 1);
    }
  }

  lemma SmallDifference(a: Words, b: Words, words: nat, n: nat)
    requires IsTable(a, words) && IsTable(b, words) && n <= words && Small(a) && Small(b)
    ensures Difference(a, b, n) < 0x8000_0000
  {
    if n > 0 && a[n - 1] == b[n - 1] {
      SmallDifference(a, b, words, n - 1);
    }
  }

  // ---- When the comparison orders a family ----

  ghost predicate Decided(a: Words, b: Words, words: nat)
    requires words <= |a| && words <= |b|
  {
    a == b || Above(a, b, words) || Above(b, a, words)
  }

  ghost predicate Chains(a: Words, b: Words, c: Words, words: nat)
    requires words <= |a| && words <= |b| && words <= |c|
  {
    Above(a, b, words) && Above(b, c, words) ==> Above(a, c, words)
  }

  /** Of two different tables one is above the other, and the comparison does not go round. */
  ghost predicate Linear(results: seq<Words>, words: nat) {
    && IsFamily(results, words)
    && (forall i, j {:trigger Decided(results[i], results[j], words)} ::
         0 <= i < |results| && 0 <= j < |results| ==> Decided(results[i], results[j], words))
    && forall i, j, k {:trigger Chains(results[i], results[j], results[k], words)} ::
         0 <= i < |results| && 0 <= j < |results| && 0 <= k < |results| ==> Chains(results[i], results[j], results[k], words)
  }

  ghost predicate SmallFamily(results: seq<Words>, words: nat) {
    forall i :: 0 <= i < |results| ==> IsTable(results[i], words) && Small(results[i])
  }

  /** Below 2^31 the comparison is a linear order. */
  lemma SmallIsLinear(results: seq<Words>, words: nat)
    requires SmallFamily(results, words)
    ensures Linear(results, words)
  {
    forall i, j | 0 <= i < |results| && 0 <= j < |results|
      ensures Decided(results[i], results[j], words)
    {
      CompareZero(results[i], results[j], words, words);
      CompareOpposite(results[i], results[j], words, words);
    }
    forall i, j, k | 0 <= i < |results| && 0 <= j < |results| && 0 <= k < |results|
      ensures Chains(results[i], results[j], results[k], words)
    {
      if Above(results[i], results[j], words) && Above(results[j], results[k], words) {
        CompareTransitive(results[i], results[j], results[k], words, words);
      }
    }
  }

  lemma WhereItBreaks(results: seq<Words>, words: nat) returns (i: nat, j: nat, k: nat)
    requires IsFamily(results, words) && !Linear(results, words)
    ensures i < |results| && j < |results| && k < |results|
    ensures !Decided(results[i], results[k], words) || !Chains(results[i], results[j], results[k], words)
  {
    if m, n :| 0 <= m < |results| && 0 <= n < |results| && !Decided(results[m], results[n], words) {
      i, j, k := m, n, n;
    } else {
      i, j, k :| 0 <= i < |results| && 0 <= j < |results| && 0 <= k < |results|
        && !Chains(results[i], results[j], results[k], words);
    }
  }

  lemma LinearBySet(a: seq<Words>, b: seq<Words>, words: nat)
    requires Linear(a, words) && IsFamily(b, words)
    requires forall j :: 0 <= j < |b| ==> b[j] in a
    ensures Linear(b, words)
  {
    forall i, j | 0 <= i < |b| && 0 <= j < |b|
      ensures Decided(b[i], b[j], words)
    {
      var m :| 0 <= m < |a| && a[m] == b[i];
      var n :| 0 <= n < |a| && a[n] == b[j];
      assert Decided(a[m], a[n], words);
    }
    forall i, j, k | 0 <= i < |b| && 0 <= j < |b| && 0 <= k < |b|
      ensures Chains(b[i], b[j], b[k], words)
    {
      var m :| 0 <= m < |a| && a[m] == b[i];
      var n :| 0 <= n < |a| && a[n] == b[j];
      var p :| 0 <= p < |a| && a[p] == b[k];
      assert Chains(a[m], a[n], a[p], words);
    }
  }

  // ---- What the sort achieves ----

  ghost predicate Descending(results: seq<Words>, words: nat, order: seq<nat>)
    requires IsFamily(results, words) && Indices(order, results)
  {
    forall i, j :: 0 <= i < j < |order| ==> Above(results[order[i]], results[order[j]], words)
  }

  ghost predicate Occurs(results: seq<Words>, order: seq<nat>, x: nat)
    requires Indices(order, results) && x < |results|
  {
    exists i :: 0 <= i < |order| && results[order[i]] == results[x]
  }

  /** Insertion fails exactly if the table is there already; otherwise the order stays
      descending and gains exactly `x`. */
  lemma {:induction false} InsertKeepsOrder(results: seq<Words>, words: nat, order: seq<nat>, x: nat)
    requires Linear(results, words) && Indices(order, results) && x < |results| && Descending(results, words, order)
    ensures InsertsWell(results, words, order, x, InsertInto(results, words, order, x))
    decreases |order|
  {
    if order != [] {
      var last := |order| - 1;
      var t, y := results[order[last]], results[x];
      CompareZero(t, y, words, words);
      var comp := Compare(t, y, words);
      if comp == 0 {
        assert t == y;
      } else if comp > 0 {
        InsertAtEnd(results, words, order, x);
      } else {
        assert Decided(results[order[last]], results[x], words);
        InsertKeepsOrder(results, words, order[..last], x);
        InsertBefore(results, words, order[..last], order[last], x, InsertInto(results, words, order[..last], x));
        assert order[..last] + [order[last]] == order;
      }
    }
  }

  /** What inserting `x` into an order must give. */
  ghost predicate InsertsWell(results: seq<Words>, words: nat, order: seq<nat>, x: nat, r: Option<seq<nat>>)
    requires IsFamily(results, words) && Indices(order, results) && x < |results|
  {
    && (r == None <==> Occurs(results, order, x))
    && (r.Some? ==> Indices(r.value, results) && Descending(results, words, r.value))
    && (r.Some? ==> multiset(r.value) == multiset(order) + multiset{x})
  }

  lemma InsertAtEnd(results: seq<Words>, words: nat, order: seq<nat>, x: nat)
    requires Linear(results, words) && Indices(order, results) && x < |results| && Descending(results, words, order)
      && order != []
    requires Above(results[order[|order| - 1]], results[x], words)
    ensures Descending(results, words, order + [x]) && !Occurs(results, order, x)
  {
    forall i | 0 <= i < |order|
      ensures Above(results[order[i]], results[x], words) && results[order[i]] != results[x]
    {
      if i < |order| - 1 {
        assert Chains(results[order[i]], results[order[|order| - 1]], results[x], words);
      }
      CompareZero(results[order[i]], results[x], words, words);
    }
  }

  /** Inserting above the lowest member. */
  lemma InsertBefore(results: seq<Words>, words: nat, front: seq<nat>, bottom: nat, x: nat, part: Option<seq<nat>>)
    requires Linear(results, words) && x < |results| && bottom < |results| && Indices(front, results)
    requires Indices(front + [bottom], results)
    requires Descending(results, words, front + [bottom]) && Above(results[x], results[bottom], words)
    requires InsertsWell(results, words, front, x, part)
    ensures InsertsWell(results, words, front + [bottom], x, if part == None then None else Some(part.value + [bottom]))
  {
    CompareZero(results[x], results[bottom], words, words);
    OccursInFront(results, front, bottom, x);
    if part.Some? {
      assert Indices(part.value + [bottom], results);
      MembersAbove(results, words, front, bottom, x, part.value);
      assert multiset(front + [bottom]) == multiset(front) + multiset{bottom};
    }
  }

  lemma OccursInFront(results: seq<Words>, front: seq<nat>, bottom: nat, x: nat)
    requires x < |results| && bottom < |results| && Indices(front, results) && Indices(front + [bottom], results)
    requires results[bottom] != results[x]
    ensures Occurs(results, front + [bottom], x) <==> Occurs(results, front, x)
  {
    if i :| 0 <= i < |front + [bottom]| && results[(front + [bottom])[i]] == results[x] {
      assert i < |front| && front[i] == (front + [bottom])[i];
    }
    if i :| 0 <= i < |front| && results[front[i]] == results[x] {
      assert (front + [bottom])[i] == front[i];
    }
  }

  lemma MembersAbove(results: seq<Words>, words: nat, front: seq<nat>, bottom: nat, x: nat, part: seq<nat>)
    requires IsFamily(results, words) && x < |results| && bottom < |results| && Indices(part, results)
    requires Indices(front + [bottom], results) && Indices(part + [bottom], results)
    requires Descending(results, words, front + [bottom]) && Above(results[x], results[bottom], words)
    requires Descending(results, words, part) && multiset(part) == multiset(front) + multiset{x}
    ensures Descending(results, words, part + [bottom])
  {
    forall i | 0 <= i < |part|
      ensures Above(results[part[i]], results[bottom], words)
    {
      assert part[i] in multiset(part);
      if part[i] != x {
        assert part[i] in front;
        var k :| 0 <= k < |front| && front[k] == part[i];
        assert (front + [bottom])[k] == part[i] && (front + [bottom])[|front|] == bottom;
      }
    }
  }

  ghost predicate HasDuplicate(results: seq<Words>, k: nat)
    requires k <= |results|
  {
    exists i, j :: 0 <= i < j < k && results[i] == results[j]
  }

  ghost function Indexes(k: nat): multiset<nat> {
    if k == 0 then multiset{} else Indexes(k - 1) + multiset{k - 1}
  }

  lemma IndexesHold(k: nat, x: nat)
    ensures Indexes(k)[x] == if x < k then 1 else 0
  {
  }

  /** Whatever the comparison does, the sort only gives up on a table that occurs twice. */
  lemma {:induction false} InsertFails(results: seq<Words>, words: nat, order: seq<nat>, x: nat)
    requires IsFamily(results, words) && Indices(order, results) && x < |results|
    requires InsertInto(results, words, order, x) == None
    ensures Occurs(results, order, x)
    decreases |order|
  {
    var last := |order| - 1;
    CompareZero(results[order[last]], results[x], words, words);
    if Compare(results[order[last]], results[x], words) == 0 {
      assert results[order[last]] == results[x];
    } else {
      InsertFails(results, words, order[..last], x);
      var i :| 0 <= i < last && results[order[..last][i]] == results[x];
      assert results[order[i]] == results[x];
    }
  }

  lemma {:induction false} FailsOnDuplicates(results: seq<Words>, words: nat, k: nat)
    requires IsFamily(results, words) && k <= |results| && SortFirst(results, words, k) == None
    ensures HasDuplicate(results, k)
  {
    hide InsertInto;
    var r := SortFirst(results, words, k - 1);
    if r == None {
      FailsOnDuplicates(results, words, k - 1);
    } else {
      InsertFails(results, words, r.value, k - 1);
      SortIsPermutation(results, words, k - 1);
      var i :| 0 <= i < |r.value| && results[r.value[i]] == results[k - 1];
      assert r.value[i] in multiset(r.value);
      IndexesHold(k - 1, r.value[i]);
    }
  }

  /** One table more. */
  lemma SortStep(results: seq<Words>, words: nat, order: seq<nat>, k: nat)
    requires Linear(results, words) && k < |results| && Indices(order, results) && !HasDuplicate(results, k)
    requires Descending(results, words, order) && multiset(order) == Indexes(k)
    ensures var r := InsertInto(results, words, order, k);
      && (r == None <==> HasDuplicate(results, k + 1))
      && (r.Some? ==> Descending(results, words, r.value) && multiset(r.value) == Indexes(k + 1))
  {
    InsertKeepsOrder(results, words, order, k);
    OccursBelow(results, order, k);
  }

  /** On an ordered family the sort gives up exactly if two tables are the same, and otherwise returns a strictly
      descending permutation. */
  lemma {:induction false} SortIsCorrect(results: seq<Words>, words: nat, k: nat)
    requires Linear(results, words) && k <= |results|
    ensures var r := SortFirst(results, words, k);
      && (r == None <==> HasDuplicate(results, k))
      && (r.Some? ==> Descending(results, words, r.value) && multiset(r.value) == Indexes(k))
  {
    if k == 0 {
    } else {
      SortIsCorrect(results, words, k - 1);
      var r := SortFirst(results, words, k - 1);
      if r.Some? {
        SortStep(results, words, r.value, k - 1);
      }
    }
  }

  lemma {:induction false} InsertAddsOne(results: seq<Words>, words: nat, order: seq<nat>, x: nat)
    requires IsFamily(results, words) && Indices(order, results) && x < |results|
      && InsertInto(results, words, order, x).Some?
    ensures multiset(InsertInto(results, words, order, x).value) == multiset(order) + multiset{x}
    decreases |order|
  {
    if order != [] {
      var front, bottom := order[..|order| - 1], order[|order| - 1];
      assert order == front + [bottom];
      if Compare(results[bottom], results[x], words) < 0 {
        InsertAddsOne(results, words, front, x);
      }
    }
  }

  /** Whatever the comparison does, a sorted list is a permutation. */
  lemma {:induction false} SortIsPermutation(results: seq<Words>, words: nat, k: nat)
    requires IsFamily(results, words) && k <= |results| && SortFirst(results, words, k).Some?
    ensures multiset(SortFirst(results, words, k).value) == Indexes(k)
  {
    if k > 0 {
      SortIsPermutation(results, words, k - 1);
      InsertAddsOne(results, words, SortFirst(results, words, k - 1).value, k - 1);
    }
  }

  lemma OccursBelow(results: seq<Words>, order: seq<nat>, k: nat)
    requires Indices(order, results) && k < |results| && multiset(order) == Indexes(k) && !HasDuplicate(results, k)
    ensures Occurs(results, order, k) <==> HasDuplicate(results, k + 1)
  {
    if Occurs(results, order, k) {
      var i :| 0 <= i < |order| && results[order[i]] == results[k];
      assert order[i] in multiset(order);
      IndexesHold(k, order[i]);
    }
    if HasDuplicate(results, k + 1) {
      var i, j :| 0 <= i < j < k + 1 && results[i] == results[j];
      assert j == k;
      IndexesHold(k, i);
      assert i in order;
      var n :| 0 <= n < |order| && order[n] == i;
    }
  }

  // ---- The first steps decide ----

  ghost predicate Before(order: seq<nat>, a: nat, b: nat) {
    exists i, j :: 0 <= i < j < |order| && order[i] == a && order[j] == b
  }

  lemma BeforeLast(front: seq<nat>, a: nat, last: nat)
    requires a in front
    ensures Before(front + [last], a, last)
  {
    var i :| 0 <= i < |front| && front[i] == a;
    assert (front + [last])[i] == a && (front + [last])[|front|] == last;
  }

  lemma BeforeMore(front: seq<nat>, a: nat, b: nat, last: nat)
    requires Before(front, a, b)
    ensures Before(front + [last], a, b)
  {
    var i, j :| 0 <= i < j < |front| && front[i] == a && front[j] == b;
    assert (front + [last])[i] == a && (front + [last])[j] == b;
  }

  lemma {:induction false} InsertKeepsBefore(results: seq<Words>, words: nat, order: seq<nat>, x: nat, a: nat, b: nat)
    requires IsFamily(results, words) && Indices(order, results) && x < |results|
      && InsertInto(results, words, order, x).Some?
    requires Before(order, a, b)
    ensures Before(InsertInto(results, words, order, x).value, a, b)
    decreases |order|
  {
    var last := |order| - 1;
    var comp := Compare(results[order[last]], results[x], words);
    if comp > 0 {
      BeforeMore(order, a, b, x);
    } else {
      var front, bottom := order[..last], order[last];
      var part := InsertInto(results, words, front, x).value;
      var i, j :| 0 <= i < j < |order| && order[i] == a && order[j] == b;
      assert front[i] == a;
      if j == last {
        InsertAddsOne(results, words, front, x);
        assert a in multiset(front) && a in multiset(part);
        BeforeLast(part, a, bottom);
      } else {
        assert front[j] == b;
        InsertKeepsBefore(results, words, front, x, a, b);
        BeforeMore(part, a, b, bottom);
      }
    }
  }

  lemma {:induction false} SortKeepsBefore(results: seq<Words>, words: nat, m: nat, n: nat, a: nat, b: nat)
    requires IsFamily(results, words) && m <= n <= |results| && SortFirst(results, words, n).Some?
    requires SortFirst(results, words, m).Some? && Before(SortFirst(results, words, m).value, a, b)
    ensures Before(SortFirst(results, words, n).value, a, b)
    decreases n
  {
    if m < n {
      SortKeepsBefore(results, words, m, n - 1, a, b);
      InsertKeepsBefore(results, words, SortFirst(results, words, n - 1).value, n - 1, a, b);
    }
  }

  lemma TwoSteps(tables: seq<Words>, words: nat)
    requires |tables| >= 2 && IsFamily(tables, words)
    ensures Compare(tables[0], tables[1], words) < 0 ==> SortFirst(tables, words, 2) == Some([1, 0])
    ensures Compare(tables[0], tables[1], words) > 0 ==> SortFirst(tables, words, 2) == Some([0, 1])
  {
    var none: seq<nat>, one: seq<nat> := [], [0];
    assert SortFirst(tables, words, 0) == Some(none);
    assert SortFirst(tables, words, 1) == Some(one);
    assert one[..0] == none && one[0] == 0;
    assert InsertInto(tables, words, none, 1) == Some([1]);
    assert SortFirst(tables, words, 2) == InsertInto(tables, words, one, 1);
    assert [1] + [0] == [1, 0] && one + [1] == [0, 1];
  }

  /** The next table goes last if it is below the last one. */
  lemma NextStep(tables: seq<Words>, words: nat, k: nat, order: seq<nat>)
    requires IsFamily(tables, words) && 0 < k <= |tables| && order != []
    requires SortFirst(tables, words, k - 1) == Some(order)
    requires Compare(tables[order[|order| - 1]], tables[k - 1], words) > 0
    ensures SortFirst(tables, words, k) == Some(order + [k - 1])
  {
  }

  lemma ThreeSteps(tables: seq<Words>, words: nat)
    requires |tables| >= 3 && IsFamily(tables, words)
    requires Compare(tables[0], tables[1], words) > 0 && Compare(tables[1], tables[2], words) > 0
    ensures SortFirst(tables, words, 3) == Some([0, 1, 2])
  {
    TwoSteps(tables, words);
    var order: seq<nat> := [0, 1];
    assert SortFirst(tables, words, 2) == Some(order);
    assert order[|order| - 1] == 1;
    NextStep(tables, words, 3, order);
    assert order + [3 - 1] == [0, 1, 2];
  }

  // ---- Canonical order ----

  ghost function Arranged(results: seq<Words>, order: seq<nat>): (tables: seq<Words>)
    requires Indices(order, results)
    ensures |tables| == |order| && forall i :: 0 <= i < |order| ==> tables[i] == results[order[i]]
  {
    seq(|order|, i requires 0 <= i < |order| => results[order[i]])
  }

  ghost predicate StrictlyDown(tables: seq<Words>, words: nat) {
    && (forall i :: 0 <= i < |tables| ==> IsTable(tables[i], words))
    && (forall i, j :: 0 <= i < j < |tables| ==> Above(tables[i], tables[j], words))
  }

  ghost function Members(tables: seq<Words>): set<Words> {
    set t | t in tables
  }

  /** Only one strictly descending list has given members. */
  lemma {:induction false} DescendingIsUnique(a: seq<Words>, b: seq<Words>, words: nat)
    requires StrictlyDown(a, words) && StrictlyDown(b, words) && Members(a) == Members(b)
    ensures a == b
    decreases |a|
  {
    assert a != [] ==> a[0] in Members(a);
    assert b != [] ==> b[0] in Members(b);
    if a != [] {
      HeadsAgree(a, b, words);
      RestMembers(a, words);
      RestMembers(b, words);
      DescendingIsUnique(a[1..], b[1..], words);
    }
  }

  lemma HeadsAgree(a: seq<Words>, b: seq<Words>, words: nat)
    requires StrictlyDown(a, words) && StrictlyDown(b, words) && a != [] && b != []
    requires a[0] in b && b[0] in a
    ensures a[0] == b[0]
  {
    var j :| 0 <= j < |b| && b[j] == a[0];
    var i :| 0 <= i < |a| && a[i] == b[0];
    if i > 0 && j > 0 {
      NotBothAbove(a[0], b[0], words, words);
    }
  }

  lemma RestMembers(a: seq<Words>, words: nat)
    requires StrictlyDown(a, words) && a != []
    ensures Members(a[1..]) == Members(a) - {a[0]}
  {
    forall i | 0 < i < |a|
      ensures a[i] != a[0]
    {
      CompareZero(a[0], a[i], words, words);
    }
    assert a == [a[0]] + a[1..];
    assert forall t :: t in a[1..] ==> t in a && t != a[0];
  }
}
