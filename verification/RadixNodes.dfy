/** Nodes of the radix tree as byte strings: equally long entries, sorted by token. */
module RadixNodes {
  import opened Bits
  import opened BitStream
  import opened Endian

  /** Equally long entries, one after the other. */
  function Flat(entries: seq<seq<Byte>>): seq<Byte> {
    if entries == [] then [] else Flat(entries[..|entries| - 1]) + entries[|entries| - 1]
  }

  ghost predicate Even(entries: seq<seq<Byte>>, size: nat) {
    forall k :: 0 <= k < |entries| ==> |entries[k]| == size
  }

  /** Where entry `k` starts. */
  function Offset(k: nat, size: nat): nat {
    if k == 0 then 0 else Offset(k - 1, size) + size
  }

  lemma {:induction false} OffsetIsProduct(k: nat, size: nat)
    ensures Offset(k, size) == k * size
  {
    if k > 0 {
      OffsetIsProduct(k - 1, size);
    }
  }

  lemma {:induction false} OffsetSum(j: nat, k: nat, size: nat)
    ensures Offset(j + k, size) == Offset(j, size) + Offset(k, size)
  {
    if k > 0 {
      OffsetSum(j, k - 1, size);
    }
  }

  lemma {:induction false} OffsetMonotone(j: nat, k: nat, size: nat)
    requires j <= k
    ensures Offset(j, size) <= Offset(k, size)
    ensures j < k ==> Offset(j, size) + size <= Offset(k, size)
    decreases k
  {
    if j < k {
      OffsetMonotone(j, k - 1, size);
    }
  }

  /** Dividing by the entry size counts the entries. */
  lemma {:induction false} OffsetDivides(k: nat, size: nat)
    requires size > 0
    ensures Offset(k, size) / size == k
  {
    OffsetIsProduct(k, size);
    ProductDivides(k, size);
  }

  lemma ProductDivides(k: nat, size: nat)
    requires size > 0
    ensures k * size / size == k
  {
    QuotientUnique(k * size, size, k, 0);
  }

  lemma {:induction false} FlatSize(entries: seq<seq<Byte>>, size: nat)
    requires Even(entries, size)
    ensures |Flat(entries)| == Offset(|entries|, size)
    decreases |entries|
  {
    if entries != [] {
      FlatSize(entries[..|entries| - 1], size);
    }
  }

  lemma {:induction false} FlatAppend(a: seq<seq<Byte>>, b: seq<seq<Byte>>)
    ensures Flat(a + b) == Flat(a) + Flat(b)
    decreases |b|
  {
    if b == [] {
      assert a + b == a;
    } else {
      var front, last := b[..|b| - 1], b[|b| - 1];
      assert (a + b)[..|a + b| - 1] == a + front;
      FlatAppend(a, front);
      Reassociate(Flat(a), Flat(front), last);
    }
  }

  lemma FlatOne(entry: seq<Byte>)
    ensures Flat([entry]) == entry
  {
    assert [entry][..0] == [];
  }

  /** Entry `k` is where it should be. */
  lemma FlatEntry(entries: seq<seq<Byte>>, size: nat, k: nat)
    requires Even(entries, size) && k < |entries|
    ensures Offset(k, size) + size <= |Flat(entries)|
    ensures Flat(entries)[Offset(k, size)..Offset(k, size) + size] == entries[k]
  {
    var front, back := entries[..k], entries[k + 1..];
    assert entries == front + [entries[k]] + back;
    FlatAppend(front + [entries[k]], back);
    FlatAppend(front, [entries[k]]);
    FlatOne(entries[k]);
    FlatSize(front, size);
  }

  function Inserted<T>(s: seq<T>, k: nat, x: T): seq<T>
    requires k <= |s|
  {
    s[..k] + [x] + s[k..]
  }

  /** Inserting the bytes of an entry at its place. */
  lemma FlatInsert(entries: seq<seq<Byte>>, size: nat, k: nat, entry: seq<Byte>)
    requires Even(entries, size) && k <= |entries|
    ensures Offset(k, size) <= |Flat(entries)|
    ensures Flat(Inserted(entries, k, entry)) == Flat(entries)[..Offset(k, size)] + entry + Flat(entries)[Offset(k, size)..]
  {
    var front, back := entries[..k], entries[k..];
    assert entries == front + back;
    FlatAppend(front, back);
    FlatSize(front, size);
    FlatAppend(front + [entry], back);
    FlatAppend(front, [entry]);
    FlatOne(entry);
  }

  // ---- Entries with tokens ----

  /** A token of `tokenSize` bytes, followed by a payload or a link. */
  function EntryBytes(token: Byte, rest: seq<Byte>, tokenSize: nat): (bytes: seq<Byte>)
    ensures |bytes| == tokenSize + |rest|
  {
    Bytes(token, tokenSize) + rest
  }

  ghost predicate Precedes(tokens: seq<Byte>, i: nat, j: nat) {
    i < |tokens| && j < |tokens| && tokens[i] < tokens[j]
  }

  ghost predicate Ascending(tokens: seq<Byte>) {
    forall i, j {:trigger Precedes(tokens, i, j)} :: 0 <= i < j < |tokens| ==> Precedes(tokens, i, j)
  }

  /** There are at most 256 tokens. */
  lemma {:induction false} TokenBound(tokens: seq<Byte>, k: nat)
    requires Ascending(tokens) && k < |tokens|
    ensures tokens[k] >= k
  {
    if k > 0 {
      assert Precedes(tokens, k - 1, k);
      TokenBound(tokens, k - 1);
    }
  }

  lemma TokensAreFew(tokens: seq<Byte>)
    requires Ascending(tokens)
    ensures |tokens| <= 256
  {
    if |tokens| > 0 {
      TokenBound(tokens, |tokens| - 1);
    }
  }

  /** `k` is where `want` is or belongs. */
  ghost predicate LowerBound(tokens: seq<Byte>, want: Byte, k: nat) {
    && k <= |tokens|
    && (forall i :: 0 <= i < k ==> tokens[i] < want)
    && forall i :: k <= i < |tokens| ==> tokens[i] >= want
  }

  lemma LowerBoundIsUnique(tokens: seq<Byte>, want: Byte, j: nat, k: nat)
    requires LowerBound(tokens, want, j) && LowerBound(tokens, want, k)
    ensures j == k
  {
    var atJ := if j < |tokens| then tokens[j] else want;
    var atK := if k < |tokens| then tokens[k] else want;
  }

  lemma InsertAscending(tokens: seq<Byte>, want: Byte, k: nat)
    requires Ascending(tokens) && LowerBound(tokens, want, k) && (k == |tokens| || tokens[k] != want)
    ensures Ascending(Inserted(tokens, k, want))
  {
    forall i | k <= i < |tokens|
      ensures tokens[i] > want
    {
      if i > k {
        assert Precedes(tokens, k, i);
      }
    }
    var more := Inserted(tokens, k, want);
    forall i, j | 0 <= i < j < |more|
      ensures Precedes(more, i, j)
    {
      if i != k && j != k {
        assert Precedes(tokens, if i < k then i else i - 1, if j < k then j else j - 1);
      }
    }
  }

  /** What is read where a token has been written. */
  lemma TokenReadsBack(token: Byte, tokenSize: nat)
    requires 1 <= tokenSize
    ensures ValueOf(Bytes(token, tokenSize)) == token
  {
    assert Pow256(1) == 256;
    Pow256Monotone(1, tokenSize);
    ReadBack(token, tokenSize);
  }
}
