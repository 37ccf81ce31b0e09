/** The loops of radixtree/RadixTree-Vector.hh that work on the bytes of one node: the binary
    search for a token, the entry of a new child, and the rebuilding of a node whose links have
    become too narrow. */
module RadixBytes {
  import opened Endian
  import opened RadixNodes
  import opened RadixTrees
  import opened RadixInsert
  import opened VectorStorage

  // ---- The binary search of ProcessHelper ----

  /** From `offset` on the bytes are entries that start with these tokens. */
  ghost predicate Entries(bytes: seq<Byte>, offset: nat, nodeSize: nat, tokenSize: nat, tokens: seq<Byte>) {
    && |bytes| == offset + Offset(|tokens|, nodeSize) && 1 <= tokenSize <= 8 && tokenSize <= nodeSize
    && forall k :: 0 <= k < |tokens| ==> TokenAt(bytes, offset + Offset(k, nodeSize), tokenSize, tokens[k])
  }

  ghost predicate TokenAt(bytes: seq<Byte>, p: nat, tokenSize: nat, token: Byte) {
    p + tokenSize <= |bytes| && bytes[p..p + tokenSize] == Bytes(token, tokenSize)
  }

  /** Reads the token of entry `k`. */
  method ReadToken(bytes: seq<Byte>, p: nat, tokenSize: nat, ghost offset: nat, ghost nodeSize: nat,
                   ghost tokens: seq<Byte>, ghost k: nat)
    returns (token: nat)
    requires Entries(bytes, offset, nodeSize, tokenSize, tokens) && k < |tokens| && p == offset + Offset(k, nodeSize)
    ensures token == tokens[k]
  {
    assert TokenAt(bytes, offset + Offset(k, nodeSize), tokenSize, tokens[k]);
    TokenReadsBack(tokens[k], tokenSize);
    token := ReadN(bytes, p, tokenSize);
  }

  /** The bounds of the search at `focus`, with `len` entries left. */
  ghost predicate Searching(tokens: seq<Byte>, want: Byte, first: nat, len: nat) {
    && first + len <= |tokens|
    && (forall i :: 0 <= i < first ==> tokens[i] < want)
    && forall i :: first + len <= i < |tokens| ==> tokens[i] >= want
  }

  lemma Narrows(tokens: seq<Byte>, want: Byte, first: nat, len: nat, half: nat)
    requires Ascending(tokens) && Searching(tokens, want, first, len) && half < len
    ensures tokens[first + half] < want ==> Searching(tokens, want, first + half + 1, len - half - 1)
    ensures tokens[first + half] >= want ==> Searching(tokens, want, first, half)
  {
    forall i | 0 <= i < |tokens| && i != first + half
      ensures i < first + half ==> tokens[i] < tokens[first + half]
      ensures i > first + half ==> tokens[i] > tokens[first + half]
    {
      assert Precedes(tokens, if i < first + half then i else first + half, if i < first + half then first + half else i);
    }
  }

  lemma MiddleOffset(first: nat, half: nat, size: nat)
    ensures Offset(first, size) + half * size == Offset(first + half, size)
    ensures Offset(first + half + 1, size) == Offset(first + half, size) + size
  {
    OffsetIsProduct(half, size);
    OffsetSum(first, half, size);
  }

  /** Halves the range of entries until the lower bound of the token is reached. */
  method LowerBoundSearch(bytes: seq<Byte>, offset: nat, nodeSize: nat, tokenSize: nat, want: Byte,
                          ghost tokens: seq<Byte>)
    returns (focus: nat, ghost first: nat)
    requires Entries(bytes, offset, nodeSize, tokenSize, tokens) && Ascending(tokens)
    ensures focus == offset + Offset(first, nodeSize) && Searching(tokens, want, first, 0)
  {
    var len: nat := (|bytes| - offset) / nodeSize;
    OffsetDivides(|tokens|, nodeSize);
    focus, first := offset, 0;
    while len > 0
      invariant Searching(tokens, want, first, len) && focus == offset + Offset(first, nodeSize)
    {
      var half := len / 2;
      var middle := focus + half * nodeSize;
      MiddleOffset(first, half, nodeSize);
      var token := ReadToken(bytes, middle, tokenSize, offset, nodeSize, tokens, first + half);
      Narrows(tokens, want, first, len, half);
      if token < want {
        focus := middle + nodeSize;
        len := len - half - 1;
        first := first + half + 1;
      } else {
        len := half;
      }
    }
  }

  /** The search for a token: `focus` is where it is or belongs. */
  method FindToken(bytes: seq<Byte>, offset: nat, nodeSize: nat, tokenSize: nat, want: Byte, ghost tokens: seq<Byte>)
    returns (found: bool, focus: nat)
    requires Entries(bytes, offset, nodeSize, tokenSize, tokens) && Ascending(tokens)
    ensures focus == offset + Offset(Place(tokens, want), nodeSize) <= |bytes|
    ensures found <==> Present(tokens, want)
  {
    ghost var first;
    focus, first := LowerBoundSearch(bytes, offset, nodeSize, tokenSize, want, tokens);
    PlaceFound(tokens, want, first);
    OffsetMonotone(first, |tokens|, nodeSize);
    if focus == |bytes| {
      AtEnd(first, |tokens|, nodeSize);
      found := false;
    } else {
      var token := ReadToken(bytes, focus, tokenSize, offset, nodeSize, tokens, first);
      found := token == want;
    }
  }

  lemma PlaceFound(tokens: seq<Byte>, want: Byte, first: nat)
    requires Ascending(tokens) && Searching(tokens, want, first, 0)
    ensures Place(tokens, want) == first
  {
    PlaceIsLowerBound(tokens, want);
    LowerBoundIsUnique(tokens, want, first, Place(tokens, want));
  }

  lemma AtEnd(first: nat, count: nat, size: nat)
    requires first <= count && size > 0 && Offset(first, size) == Offset(count, size)
    ensures first == count
  {
    OffsetMonotone(first, count, size);
  }

  // ---- Entries ----

  /** Token and link of a child. */
  method LinkBytes(token: Byte, delta: nat, width: nat, tokenSize: nat) returns (bytes: seq<Byte>)
    requires 1 <= tokenSize <= 8 && 1 <= width <= 8
    ensures bytes == EntryBytes(token, Bytes(delta, width), tokenSize)
  {
    var node := new Byte[tokenSize + width](i => 0);
    Wn(node, 0, token, tokenSize);
    ghost var first := node[..];
    Wn(node, tokenSize, delta, width);
    assert node[..] == first[..tokenSize] + Bytes(delta, width);
    bytes := node[..];
  }

  /** Token and payload of a leaf entry. */
  method PayloadBytes(token: Byte, data: seq<Byte>, tokenSize: nat) returns (bytes: seq<Byte>)
    requires 1 <= tokenSize <= 8
    ensures bytes == EntryBytes(token, data, tokenSize)
  {
    var node := new Byte[tokenSize + |data|](i => 0);
    Wn(node, 0, token, tokenSize);
    ghost var first := node[..];
    forall i | 0 <= i < |data| {
      node[tokenSize + i] := data[i];
    }
    assert node[..] == first[..tokenSize] + data;
    bytes := node[..];
  }

  // ---- What adding an entry does to the bytes ----

  lemma LeafBytesAdded(id: nat, items: seq<Item>, k: nat, item: Item, shape: Shape)
    requires k <= |items| && |item.payload| == shape.payloadSize
    requires forall i :: 0 <= i < |items| ==> |items[i].payload| == shape.payloadSize
    ensures SplicedTo(NodeBytes(Leaf(id, items), shape), Offset(k, shape.tokenSize + shape.payloadSize),
                      EntryBytes(item.token, item.payload, shape.tokenSize), NodeBytes(Leaf(id, Inserted(items, k, item)), shape))
  {
    hide Flat, Offset, Even, Inserted, EntryBytes, LeafEntries, SplicedTo;
    var entries, more := ItemEntries(items, k, item, shape);
    FlatSpliced(entries, more, shape.tokenSize + shape.payloadSize, k,
                EntryBytes(item.token, item.payload, shape.tokenSize));
  }

  /** `t` is `s` with a part inserted. */
  ghost predicate SplicedTo(s: seq<Byte>, at: nat, part: seq<Byte>, t: seq<Byte>) {
    at <= |s| && t == Spliced(s, at, 0, part)
  }

  lemma ItemEntries(items: seq<Item>, k: nat, item: Item, shape: Shape)
    returns (entries: seq<seq<Byte>>, more: seq<seq<Byte>>)
    requires k <= |items| && forall i :: 0 <= i < |items| ==> |items[i].payload| == shape.payloadSize
    ensures entries == LeafEntries(items, shape.tokenSize) && |entries| == |items|
      && Even(entries, shape.tokenSize + shape.payloadSize)
    ensures more == LeafEntries(Inserted(items, k, item), shape.tokenSize)
    ensures more == Inserted(entries, k, EntryBytes(item.token, item.payload, shape.tokenSize))
  {
    entries, more := LeafEntries(items, shape.tokenSize), LeafEntries(Inserted(items, k, item), shape.tokenSize);
    LeafEntriesInserted(items, k, item, shape.tokenSize);
    EvenItems(items, shape);
  }

  lemma FlatSpliced(entries: seq<seq<Byte>>, more: seq<seq<Byte>>, size: nat, k: nat, entry: seq<Byte>)
    requires Even(entries, size) && k <= |entries| && more == Inserted(entries, k, entry)
    ensures SplicedTo(Flat(entries), Offset(k, size), entry, Flat(more))
  {
    FlatInsert(entries, size, k, entry);
    SplicedInsert(Flat(entries), Offset(k, size), entry);
  }

  lemma SplicedInsert(s: seq<Byte>, at: nat, part: seq<Byte>)
    requires at <= |s|
    ensures Spliced(s, at, 0, part) == s[..at] + part + s[at..]
  {
  }

  lemma EvenItems(items: seq<Item>, shape: Shape)
    requires forall i :: 0 <= i < |items| ==> |items[i].payload| == shape.payloadSize
    ensures Even(LeafEntries(items, shape.tokenSize), shape.tokenSize + shape.payloadSize)
  {
  }

  lemma LeafEntriesInserted(items: seq<Item>, k: nat, item: Item, tokenSize: nat)
    requires k <= |items|
    ensures LeafEntries(Inserted(items, k, item), tokenSize)
      == Inserted(LeafEntries(items, tokenSize), k, EntryBytes(item.token, item.payload, tokenSize))
  {
  }

  lemma ChildEntriesInserted(id: nat, width: nat, children: seq<Child>, k: nat, child: Child, tokenSize: nat)
    requires k <= |children|
    ensures ChildEntries(id, width, Inserted(children, k, child), tokenSize)
      == Inserted(ChildEntries(id, width, children, tokenSize), k, LinkEntry(id, width, child.token, child.tree.id, tokenSize))
  {
    var more := Inserted(children, k, child);
    var entries := ChildEntries(id, width, more, tokenSize);
    var expected := Inserted(ChildEntries(id, width, children, tokenSize), k,
                             LinkEntry(id, width, child.token, child.tree.id, tokenSize));
    forall i | 0 <= i < |entries|
      ensures entries[i] == expected[i]
    {
    }
  }

  /** The width is kept. */
  lemma NodeBytesAdded(id: nat, width: nat, children: seq<Child>, k: nat, child: Child, shape: Shape)
    requires k <= |children| && children != [] && 1 <= width <= 8
    ensures SplicedTo(NodeBytes(Node(id, width, children), shape), 1 + Offset(k, shape.tokenSize + width),
                      LinkEntry(id, width, child.token, child.tree.id, shape.tokenSize),
                      NodeBytes(Node(id, width, Inserted(children, k, child)), shape))
  {
    hide Flat, Offset, LinkEntry, ChildEntries, Spliced;
    var flat := FlatInserted(id, width, children, k, child, shape.tokenSize);
    SplicedBehind(width, flat, Offset(k, shape.tokenSize + width),
                  LinkEntry(id, width, child.token, child.tree.id, shape.tokenSize));
  }

  lemma FlatInserted(id: nat, width: nat, children: seq<Child>, k: nat, child: Child, tokenSize: nat)
    returns (flat: seq<Byte>)
    requires k <= |children|
    ensures flat == Flat(ChildEntries(id, width, children, tokenSize)) && Offset(k, tokenSize + width) <= |flat|
    ensures Flat(ChildEntries(id, width, Inserted(children, k, child), tokenSize))
      == flat[..Offset(k, tokenSize + width)] + LinkEntry(id, width, child.token, child.tree.id, tokenSize)
        + flat[Offset(k, tokenSize + width)..]
  {
    flat := Flat(ChildEntries(id, width, children, tokenSize));
    ChildEntriesInserted(id, width, children, k, child, tokenSize);
    EvenChildren(id, width, children, tokenSize);
    FlatInsert(ChildEntries(id, width, children, tokenSize), tokenSize + width, k,
               LinkEntry(id, width, child.token, child.tree.id, tokenSize));
  }

  lemma SplicedBehind(first: Byte, flat: seq<Byte>, at: nat, entry: seq<Byte>)
    requires at <= |flat|
    ensures [first] + (flat[..at] + entry + flat[at..]) == Spliced([first] + flat, 1 + at, 0, entry)
  {
    assert ([first] + flat)[..1 + at] == [first] + flat[..at];
    assert ([first] + flat)[1 + at..] == flat[at..];
  }

  /** The first child. */
  lemma NodeBytesOfOne(id: nat, width: nat, child: Child, shape: Shape)
    requires 1 <= width <= 8
    ensures NodeBytes(Node(id, width, [child]), shape) == [width] + LinkEntry(id, width, child.token, child.tree.id, shape.tokenSize)
  {
    var entries := ChildEntries(id, width, [child], shape.tokenSize);
    assert entries == [LinkEntry(id, width, child.token, child.tree.id, shape.tokenSize)];
    FlatOne(entries[0]);
  }

  // ---- Nodes as entries ----

  lemma EvenChildren(id: nat, width: nat, children: seq<Child>, tokenSize: nat)
    ensures Even(ChildEntries(id, width, children, tokenSize), tokenSize + width)
  {
  }

  /** A part of an entry, found in a longer string. */
  lemma PartOf(bytes: seq<Byte>, p: nat, entry: seq<Byte>, i: nat, part: seq<Byte>)
    requires p + |entry| <= |bytes| && bytes[p..p + |entry|] == entry
    requires i + |part| <= |entry| && entry[i..i + |part|] == part
    ensures bytes[p + i..p + i + |part|] == part
  {
    forall k | 0 <= k < |part|
      ensures bytes[p + i..p + i + |part|][k] == part[k]
    {
      assert entry[i..i + |part|][k] == entry[i + k];
      assert bytes[p..p + |entry|][i + k] == bytes[p + (i + k)];
    }
  }

  /** Entry `k`, behind some other bytes. */
  lemma EntryBehind(front: seq<Byte>, entries: seq<seq<Byte>>, size: nat, k: nat)
    requires Even(entries, size) && k < |entries|
    ensures var p := |front| + Offset(k, size);
      p + size <= |front + Flat(entries)| && (front + Flat(entries))[p..p + size] == entries[k]
  {
    FlatEntry(entries, size, k);
    BehindFront(front, Flat(entries), Offset(k, size), size);
  }

  lemma BehindFront(front: seq<Byte>, flat: seq<Byte>, at: nat, size: nat)
    requires at + size <= |flat|
    ensures (front + flat)[|front| + at..|front| + at + size] == flat[at..at + size]
  {
  }

  ghost predicate StartsWith(entry: seq<Byte>, token: Byte, tokenSize: nat) {
    tokenSize <= |entry| && entry[..tokenSize] == Bytes(token, tokenSize)
  }

  /** Entries that start with the tokens, behind some other bytes. */
  lemma EntriesOf(front: seq<Byte>, entries: seq<seq<Byte>>, size: nat, tokenSize: nat, tokens: seq<Byte>)
    requires Even(entries, size) && |tokens| == |entries| && 1 <= tokenSize <= 8 && tokenSize <= size
    requires forall k :: 0 <= k < |entries| ==> StartsWith(entries[k], tokens[k], tokenSize)
    ensures Entries(front + Flat(entries), |front|, size, tokenSize, tokens)
  {
    FlatSize(entries, size);
    forall k | 0 <= k < |tokens|
      ensures TokenAt(front + Flat(entries), |front| + Offset(k, size), tokenSize, tokens[k])
    {
      assert StartsWith(entries[k], tokens[k], tokenSize);
      TokenOfEntry(front, entries, size, k, tokens[k], tokenSize);
    }
  }

  lemma TokenOfEntry(front: seq<Byte>, entries: seq<seq<Byte>>, size: nat, k: nat, token: Byte, tokenSize: nat)
    requires Even(entries, size) && k < |entries| && tokenSize <= size && StartsWith(entries[k], token, tokenSize)
    ensures TokenAt(front + Flat(entries), |front| + Offset(k, size), tokenSize, token)
  {
    hide Flat, Offset, Bytes;
    EntryBehind(front, entries, size, k);
    PartOf(front + Flat(entries), |front| + Offset(k, size), entries[k], 0, Bytes(token, tokenSize));
  }

  lemma EntryStarts(token: Byte, rest: seq<Byte>, tokenSize: nat)
    ensures StartsWith(EntryBytes(token, rest, tokenSize), token, tokenSize)
    ensures EntryBytes(token, rest, tokenSize)[tokenSize..tokenSize + |rest|] == rest
  {
  }

  lemma LeafHasEntries(node: Tree, shape: Shape)
    requires Sane(shape) && node.Leaf? && forall i :: 0 <= i < |node.items| ==> |node.items[i].payload| == shape.payloadSize
    ensures Entries(NodeBytes(node, shape), 0, shape.tokenSize + shape.payloadSize, shape.tokenSize, Tokens(node))
  {
    hide Flat, Offset, Bytes, TokenAt;
    var entries := LeafEntries(node.items, shape.tokenSize);
    forall k | 0 <= k < |entries|
      ensures |entries[k]| == shape.tokenSize + shape.payloadSize
        && StartsWith(entries[k], Tokens(node)[k], shape.tokenSize)
    {
      EntryStarts(node.items[k].token, node.items[k].payload, shape.tokenSize);
    }
    EntriesOf([], entries, shape.tokenSize + shape.payloadSize, shape.tokenSize, Tokens(node));
    assert [] + Flat(entries) == Flat(entries);
  }

  // ---- Links ----

  function Deltas(node: Tree): (deltas: seq<nat>)
    requires node.Node?
    ensures |deltas| == |node.children|
    ensures forall s :: 0 <= s < |deltas| ==> deltas[s] == Delta(node.id, node.children[s].tree.id)
  {
    seq(|node.children|, s requires 0 <= s < |node.children| => Delta(node.id, node.children[s].tree.id))
  }

  ghost predicate LinkAt(bytes: seq<Byte>, p: nat, width: nat, delta: nat) {
    p + width <= |bytes| && bytes[p..p + width] == Bytes(delta, width)
  }

  /** Behind the first byte, the bytes are entries with these tokens and links. */
  ghost predicate Links(bytes: seq<Byte>, tokenSize: nat, width: nat, tokens: seq<Byte>, deltas: seq<nat>) {
    && Entries(bytes, 1, tokenSize + width, tokenSize, tokens) && |deltas| == |tokens| && 1 <= width <= 8
    && forall s :: 0 <= s < |deltas| ==> LinkAt(bytes, 1 + Offset(s, tokenSize + width) + tokenSize, width, deltas[s])
  }

  ghost predicate IsEntry(entry: seq<Byte>, token: Byte, delta: nat, width: nat, tokenSize: nat) {
    entry == EntryBytes(token, Bytes(delta, width), tokenSize)
  }

  lemma LinkOfEntry(front: seq<Byte>, entries: seq<seq<Byte>>, k: nat, token: Byte, delta: nat, width: nat,
                    tokenSize: nat)
    requires Even(entries, tokenSize + width) && k < |entries| && IsEntry(entries[k], token, delta, width, tokenSize)
    ensures LinkAt(front + Flat(entries), |front| + Offset(k, tokenSize + width) + tokenSize, width, delta)
  {
    EntryBehind(front, entries, tokenSize + width, k);
    EntryStarts(token, Bytes(delta, width), tokenSize);
    PartOf(front + Flat(entries), |front| + Offset(k, tokenSize + width), entries[k], tokenSize, Bytes(delta, width));
  }

  lemma LinksOf(first: Byte, entries: seq<seq<Byte>>, tokenSize: nat, width: nat, tokens: seq<Byte>, deltas: seq<nat>)
    requires |tokens| == |deltas| == |entries| && 1 <= tokenSize <= 8 && 1 <= width <= 8
    requires forall k :: 0 <= k < |entries| ==> IsEntry(entries[k], tokens[k], deltas[k], width, tokenSize)
    ensures Links([first] + Flat(entries), tokenSize, width, tokens, deltas)
  {
    hide Flat, Offset, Even, IsEntry, StartsWith, LinkAt;
    LinkEntriesStart(entries, tokenSize, width, tokens, deltas);
    EntriesBehindOne(first, entries, tokenSize + width, tokenSize, tokens);
    LinksAt(first, entries, tokenSize, width, tokens, deltas);
  }

  lemma EntriesBehindOne(first: Byte, entries: seq<seq<Byte>>, size: nat, tokenSize: nat, tokens: seq<Byte>)
    requires Even(entries, size) && |tokens| == |entries| && 1 <= tokenSize <= 8 && tokenSize <= size
    requires forall k :: 0 <= k < |entries| ==> StartsWith(entries[k], tokens[k], tokenSize)
    ensures Entries([first] + Flat(entries), 1, size, tokenSize, tokens)
  {
    EntriesOf([first], entries, size, tokenSize, tokens);
  }

  lemma LinksAt(first: Byte, entries: seq<seq<Byte>>, tokenSize: nat, width: nat, tokens: seq<Byte>, deltas: seq<nat>)
    requires |tokens| == |deltas| == |entries| && Even(entries, tokenSize + width)
    requires forall k :: 0 <= k < |entries| ==> IsEntry(entries[k], tokens[k], deltas[k], width, tokenSize)
    ensures forall s :: 0 <= s < |deltas| ==>
      LinkAt([first] + Flat(entries), 1 + Offset(s, tokenSize + width) + tokenSize, width, deltas[s])
  {
    forall s | 0 <= s < |deltas|
      ensures LinkAt([first] + Flat(entries), 1 + Offset(s, tokenSize + width) + tokenSize, width, deltas[s])
    {
      assert IsEntry(entries[s], tokens[s], deltas[s], width, tokenSize);
      LinkOfEntry([first], entries, s, tokens[s], deltas[s], width, tokenSize);
    }
  }

  lemma LinkEntriesStart(entries: seq<seq<Byte>>, tokenSize: nat, width: nat, tokens: seq<Byte>, deltas: seq<nat>)
    requires |tokens| == |deltas| == |entries|
    requires forall k :: 0 <= k < |entries| ==> IsEntry(entries[k], tokens[k], deltas[k], width, tokenSize)
    ensures Even(entries, tokenSize + width)
    ensures forall k :: 0 <= k < |entries| ==> StartsWith(entries[k], tokens[k], tokenSize)
  {
    forall k | 0 <= k < |entries|
      ensures |entries[k]| == tokenSize + width && StartsWith(entries[k], tokens[k], tokenSize)
    {
      assert IsEntry(entries[k], tokens[k], deltas[k], width, tokenSize);
      EntryStarts(tokens[k], Bytes(deltas[k], width), tokenSize);
    }
  }

  /** An inner node, as it is read. */
  lemma NodeHasLinks(node: Tree, shape: Shape)
    requires Sane(shape) && node.Node? && node.children != [] && 1 <= node.width <= 8
    ensures var bytes := NodeBytes(node, shape);
      |bytes| > 0 && bytes[0] == node.width && Links(bytes, shape.tokenSize, node.width, Tokens(node), Deltas(node))
  {
    var entries := ChildEntries(node.id, node.width, node.children, shape.tokenSize);
    forall k | 0 <= k < |entries|
      ensures IsEntry(entries[k], Tokens(node)[k], Deltas(node)[k], node.width, shape.tokenSize)
    {
    }
    LinksOf(node.width, entries, shape.tokenSize, node.width, Tokens(node), Deltas(node));
  }

  /** The payload behind token `k`. */
  lemma LeafPayload(node: Tree, shape: Shape, k: nat)
    requires node.Leaf? && k < |node.items|
    requires forall i :: 0 <= i < |node.items| ==> |node.items[i].payload| == shape.payloadSize
    ensures var bytes := NodeBytes(node, shape); var p := Offset(k, shape.tokenSize + shape.payloadSize) + shape.tokenSize;
      p + shape.payloadSize <= |bytes| && bytes[p..p + shape.payloadSize] == node.items[k].payload
  {
    hide Flat, Offset, Bytes;
    var size, entries := shape.tokenSize + shape.payloadSize, LeafEntries(node.items, shape.tokenSize);
    FlatEntry(entries, size, k);
    EntryStarts(node.items[k].token, node.items[k].payload, shape.tokenSize);
    PartOf(Flat(entries), Offset(k, size), entries[k], shape.tokenSize, node.items[k].payload);
  }

  // ---- Rebuilding a node with wider links ----

  method WriteEntry(buf: array<Byte>, dest: nat, token: Byte, delta: nat, width: nat, tokenSize: nat)
    requires 1 <= tokenSize <= 8 && 1 <= width <= 8 && dest + tokenSize + width <= buf.Length
    modifies buf
    ensures Wrote(buf[..], old(buf[..]), dest, EntryBytes(token, Bytes(delta, width), tokenSize))
  {
    ghost var a := buf[..];
    Wn(buf, dest, token, tokenSize);
    ghost var b := buf[..];
    Wn(buf, dest + tokenSize, delta, width);
    WroteTwice(a, b, buf[..], dest, Bytes(token, tokenSize), Bytes(delta, width));
  }

  /** The first `d` entries have been written behind the width. */
  ghost predicate Rebuilt(buf: seq<Byte>, width: Byte, entries: seq<seq<Byte>>, size: nat, d: nat) {
    d <= |entries| && 1 + Offset(d, size) <= |buf| && buf[..1 + Offset(d, size)] == [width] + Flat(entries[..d])
  }

  lemma RebuiltOneMore(before: seq<Byte>, after: seq<Byte>, width: Byte, entries: seq<seq<Byte>>, size: nat, d: nat)
    requires Rebuilt(before, width, entries, size, d) && d < |entries| && |entries[d]| == size
    requires Wrote(after, before, 1 + Offset(d, size), entries[d])
    ensures Rebuilt(after, width, entries, size, d + 1)
  {
    assert entries[..d + 1] == entries[..d] + [entries[d]];
    FlatAppend(entries[..d], [entries[d]]);
    FlatOne(entries[d]);
    assert after[..1 + Offset(d + 1, size)] == before[..1 + Offset(d, size)] + entries[d];
  }

  /** Writes entry `d`. */
  method PutEntry(buf: array<Byte>, d: nat, token: Byte, delta: nat, width: nat, tokenSize: nat,
                  ghost entries: seq<seq<Byte>>)
    requires 1 <= tokenSize <= 8 && 1 <= width <= 8 && d < |entries|
    requires entries[d] == EntryBytes(token, Bytes(delta, width), tokenSize)
    requires Rebuilt(buf[..], width, entries, tokenSize + width, d)
    requires buf.Length == 1 + Offset(|entries|, tokenSize + width)
    modifies buf
    ensures Rebuilt(buf[..], width, entries, tokenSize + width, d + 1)
  {
    ghost var before := buf[..];
    OffsetIsProduct(d, tokenSize + width);
    OffsetMonotone(d, |entries|, tokenSize + width);
    WriteEntry(buf, 1 + d * (tokenSize + width), token, delta, width, tokenSize);
    RebuiltOneMore(before, buf[..], width, entries, tokenSize + width, d);
  }

  /** Reads token and link of entry `s`. */
  method ReadEntry(bytes: seq<Byte>, s: nat, width: nat, tokenSize: nat, ghost tokens: seq<Byte>,
                   ghost deltas: seq<nat>)
    returns (token: Byte, link: nat)
    requires Links(bytes, tokenSize, width, tokens, deltas) && s < |tokens| && deltas[s] < Pow256(width)
    ensures token == tokens[s] && link == deltas[s]
  {
    var src := 1 + s * (tokenSize + width);
    OffsetIsProduct(s, tokenSize + width);
    token := ReadToken(bytes, src, tokenSize, 1, tokenSize + width, tokens, s);
    link := ReadLink(bytes, src + tokenSize, width, deltas[s]);
  }

  method ReadLink(bytes: seq<Byte>, p: nat, width: nat, ghost delta: nat) returns (link: nat)
    requires 1 <= width <= 8 && LinkAt(bytes, p, width, delta) && delta < Pow256(width)
    ensures link == delta
  {
    ReadBack(delta, width);
    link := ReadN(bytes, p, width);
  }

  ghost predicate Narrow(deltas: seq<nat>, width: nat) {
    forall s :: 0 <= s < |deltas| ==> deltas[s] < Pow256(width)
  }

  /** The entries, wider and with a new one at place `k`. */
  ghost predicate Widened(entries: seq<seq<Byte>>, tokens: seq<Byte>, deltas: seq<nat>, k: nat, token: Byte, delta: nat,
                          width: nat, tokenSize: nat)
  {
    && k <= |tokens| == |deltas| == |entries| - 1 && IsEntry(entries[k], token, delta, width, tokenSize)
    && forall s :: 0 <= s < |tokens| ==> IsEntry(entries[Moved(s, k)], tokens[s], deltas[s], width, tokenSize)
  }

  /** One round of the rebuilding loop. */
  method WidenStep(bytes: seq<Byte>, count: nat, s: nat, d0: nat, buf: array<Byte>, insertIndex: nat, oldWidth: nat,
                   width: nat,
                   token: Byte, delta: nat, tokenSize: nat, ghost tokens: seq<Byte>, ghost deltas: seq<nat>,
                   ghost entries: seq<seq<Byte>>) returns (d: nat)
    requires Links(bytes, tokenSize, oldWidth, tokens, deltas) && Narrow(deltas, oldWidth) && 1 <= width <= 8
    requires Widened(entries, tokens, deltas, insertIndex, token, delta, width, tokenSize)
    requires count == |tokens| && s <= count && d0 == (if s <= insertIndex then s else s + 1)
    requires Rebuilt(buf[..], width, entries, tokenSize + width, d0)
      && buf.Length == 1 + Offset(|entries|, tokenSize + width)
    modifies buf
    ensures d == if s < count then (if s < insertIndex then s + 1 else s + 2) else s + 1
    ensures Rebuilt(buf[..], width, entries, tokenSize + width, d)
  {
    d := d0;
    if d == insertIndex {
      PutEntry(buf, d, token, delta, width, tokenSize, entries);
      d := d + 1;
    }
    if s < count {
      var oldToken, link := ReadEntry(bytes, s, oldWidth, tokenSize, tokens, deltas);
      assert IsEntry(entries[Moved(s, insertIndex)], tokens[s], deltas[s], width, tokenSize);
      PutEntry(buf, d, oldToken, link, width, tokenSize, entries);
      d := d + 1;
    }
  }

  /** A node with these links can be rewritten with wider ones and a new entry at place `k`. */
  ghost predicate CanWiden(bytes: seq<Byte>, bytePos: nat, oldWidth: nat, width: nat, token: Byte, delta: nat,
                           tokenSize: nat, k: nat,
                           tokens: seq<Byte>, deltas: seq<nat>, entries: seq<seq<Byte>>)
  {
    && Links(bytes, tokenSize, oldWidth, tokens, deltas) && Narrow(deltas, oldWidth) && 1 <= width <= 8
    && bytePos == Offset(k, tokenSize + oldWidth) && Widened(entries, tokens, deltas, k, token, delta, width, tokenSize)
  }

  lemma RebuildSizes(bytes: seq<Byte>, bytePos: nat, oldWidth: nat, width: nat, token: Byte, delta: nat, tokenSize: nat,
                     k: nat, tokens: seq<Byte>, deltas: seq<nat>, entries: seq<seq<Byte>>)
    requires CanWiden(bytes, bytePos, oldWidth, width, token, delta, tokenSize, k, tokens, deltas, entries)
    ensures tokenSize + oldWidth > 0 && |bytes| >= 1 && 1 <= width <= 8
    ensures (|bytes| - 1) / (tokenSize + oldWidth) == |tokens| == |entries| - 1 && bytePos / (tokenSize + oldWidth) == k
    ensures (|tokens| + 1) * (tokenSize + width) == Offset(|entries|, tokenSize + width)
  {
    OffsetDivides(|tokens|, tokenSize + oldWidth);
    OffsetDivides(k, tokenSize + oldWidth);
    OffsetIsProduct(|tokens| + 1, tokenSize + width);
  }

  lemma NothingRebuilt(buf: seq<Byte>, width: Byte, entries: seq<seq<Byte>>, size: nat)
    requires |buf| > 0 && buf[0] == width
    ensures Rebuilt(buf, width, entries, size, 0)
  {
    assert Flat(entries[..0]) == [] && buf[..1] == [width] + [];
  }

  lemma AllRebuilt(buf: seq<Byte>, width: Byte, entries: seq<seq<Byte>>, size: nat)
    requires Rebuilt(buf, width, entries, size, |entries|) && |buf| == 1 + Offset(|entries|, size)
    ensures buf == [width] + Flat(entries)
  {
    assert entries[..|entries|] == entries && buf[..1 + Offset(|entries|, size)] == buf;
  }

  /** Rewrites all entries with wider links and pokes the new one in. */
  method Rebuild(bytes: seq<Byte>, bytePos: nat, oldWidth: nat, width: nat, token: Byte, delta: nat, tokenSize: nat,
                 ghost k: nat,
                 ghost tokens: seq<Byte>, ghost deltas: seq<nat>, ghost entries: seq<seq<Byte>>) returns (newBytes: seq<Byte>)
    requires CanWiden(bytes, bytePos, oldWidth, width, token, delta, tokenSize, k, tokens, deltas, entries)
    ensures newBytes == [width] + Flat(entries)
  {
    RebuildSizes(bytes, bytePos, oldWidth, width, token, delta, tokenSize, k, tokens, deltas, entries);
    var newSize := tokenSize + width;
    var count := (|bytes| - 1) / (tokenSize + oldWidth);
    var insertIndex := bytePos / (tokenSize + oldWidth);
    var newBufSize: nat := 1 + (count + 1) * newSize;
    assert Links(bytes, tokenSize, oldWidth, tokens, deltas) && Narrow(deltas, oldWidth);
    assert Widened(entries, tokens, deltas, k, token, delta, width, tokenSize);
    hide *;
    var buf := NewBlock(newBufSize, width);
    NothingRebuilt(buf[..], width, entries, newSize);
    WidenAll(bytes, count, buf, insertIndex, oldWidth, width, token, delta, tokenSize, tokens, deltas, entries);
    AllRebuilt(buf[..], width, entries, newSize);
    newBytes := buf[..];
  }

  /** A block that starts with the width. */
  method NewBlock(size: nat, width: Byte) returns (buf: array<Byte>)
    requires size > 0
    ensures fresh(buf) && buf.Length == size && buf[0] == width
  {
    buf := new Byte[size](i => 0);
    buf[0] := width;
  }

  method WidenAll(bytes: seq<Byte>, count: nat, buf: array<Byte>, insertIndex: nat, oldWidth: nat, width: nat,
                  token: Byte, delta: nat, tokenSize: nat, ghost tokens: seq<Byte>, ghost deltas: seq<nat>, ghost entries: seq<seq<Byte>>)
    requires Links(bytes, tokenSize, oldWidth, tokens, deltas) && Narrow(deltas, oldWidth) && 1 <= width <= 8
    requires Widened(entries, tokens, deltas, insertIndex, token, delta, width, tokenSize) && count == |tokens|
    requires Rebuilt(buf[..], width, entries, tokenSize + width, 0)
      && buf.Length == 1 + Offset(|entries|, tokenSize + width)
    modifies buf
    ensures Rebuilt(buf[..], width, entries, tokenSize + width, |entries|)
  {
    var s, d := 0, 0;
    while s <= count
      invariant s <= count + 1 && d == (if s <= insertIndex then s else if s <= count then s + 1 else s)
      invariant Rebuilt(buf[..], width, entries, tokenSize + width, d)
    {
      d := WidenStep(bytes, count, s, d, buf, insertIndex, oldWidth, width, token, delta, tokenSize, tokens, deltas,
                     entries);
      s := s + 1;
    }
  }

  /** The entries of a node that has got a new child and a new width. */
  lemma WidenedNode(node: Tree, width: nat, k: nat, child: Child, shape: Shape) returns (entries: seq<seq<Byte>>)
    requires node.Node? && k <= |node.children| && width <= 8
    ensures Widened(entries, Tokens(node), Deltas(node), k, child.token, Delta(node.id, child.tree.id), width, shape.tokenSize)
    ensures NodeBytes(Node(node.id, width, Inserted(node.children, k, child)), shape) == [width] + Flat(entries)
  {
    var more := Inserted(node.children, k, child);
    entries := ChildEntries(node.id, width, more, shape.tokenSize);
    forall s | 0 <= s < |node.children|
      ensures IsEntry(entries[Moved(s, k)], Tokens(node)[s], Deltas(node)[s], width, shape.tokenSize)
    {
      assert more[Moved(s, k)] == node.children[s];
    }
    assert more[k] == child;
  }
}
