/** radixtree/RadixTree-Vector.hh: the bytes that AddBack puts into a node, and the nodes it
    leaves behind. */
module RadixAdding {
  import opened Endian
  import opened RadixNodes
  import opened RadixTrees
  import opened RadixInsert
  import opened RadixBytes
  import opened RadixMap
  import opened VectorLayout

  const ID_LIMIT: nat := 0x1_0000_0000_0000_0000

  /** Where in its node a token belongs, not counting the width in front. */
  ghost function EntryOffset(node: Tree, want: Byte, shape: Shape): nat {
    if node.Leaf? then Offset(Place(Tokens(node), want), shape.tokenSize + shape.payloadSize)
    else if node.children == [] then 0
    else Offset(Place(Tokens(node), want), shape.tokenSize + node.width)
  }

  // ---- Empty nodes ----

  /** A node without entries. */
  ghost function Empty(id: nat, level: nat, shape: Shape): Tree {
    if level + 1 >= shape.realSize then Leaf(id, []) else Node(id, 1, [])
  }

  lemma EmptyIsWellFormed(id: nat, level: nat, shape: Shape)
    requires level < shape.realSize
    ensures WellFormed(Empty(id, level, shape), level, shape) && NodeBytes(Empty(id, level, shape), shape) == []
    ensures Ids(Empty(id, level, shape)) == {id} && Tokens(Empty(id, level, shape)) == []
  {
  }

  /** What the rest of a key makes of an empty node. */
  lemma EmptyNode(id: nat, next: nat, key: Key, level: nat, data: seq<Byte>, shape: Shape) returns (node: Tree)
    requires level < |key| == shape.realSize && next == id + 1
    ensures node.id == id && WellFormed(node, level, shape) && NodeBytes(node, shape) == []
    ensures !Present(Tokens(node), key[level]) && EntryOffset(node, key[level], shape) == 0
    ensures node.Node? <==> level + 1 < |key|
    ensures Added(node, key, level, data, next) == Chain(key, level, data, id)
  {
    node := Empty(id, level, shape);
    EmptyIsWellFormed(id, level, shape);
    assert Tokens(node) == [] && Place([], key[level]) == 0;
    if node.Node? {
      LinkWidthIsCalculated(Delta(id, id + 1));
      assert Inserted<Child>([], 0, Child(key[level], Chain(key, level + 1, data, id + 1)))
        == [Child(key[level], Chain(key, level + 1, data, id + 1))];
    } else {
      assert Inserted<Item>([], 0, Item(key[level], data)) == [Item(key[level], data)];
    }
  }

  /** A new tree stands for the empty map. */
  lemma EmptyIsStored(vectors: seq<seq<Byte>>, id: nat, shape: Shape) returns (tree: Tree)
    requires Sane(shape) && id < |vectors| && vectors[id] == []
    ensures tree.id == id && Stored(vectors, tree, map[], shape) && Ids(tree) == {id}
  {
    tree := Empty(id, 0, shape);
    EmptyIsWellFormed(id, 0, shape);
    forall key: Key | |key| == shape.realSize
      ensures FoundAs(Empty(id, 0, shape), map[], key)
    {
      MissingHere(Empty(id, 0, shape), key, 0);
    }
  }

  /** There is room for one more entry. */
  lemma RoomForOne(node: Tree, want: Byte, level: nat, shape: Shape)
    requires WellFormed(node, level, shape) && !Present(Tokens(node), want)
    ensures |Tokens(node)| < 256
  {
    PlaceInInserted(Tokens(node), want, want);
    TokensAreFew(Inserted(Tokens(node), Place(Tokens(node), want), want));
  }

  // ---- Leaves ----

  lemma LeafAdded(node: Tree, key: Key, level: nat, data: seq<Byte>, shape: Shape)
    requires Sane(shape) && WellFormed(node, level, shape) && node.Leaf?
    requires level < |key| && |data| == shape.payloadSize && !Present(Tokens(node), key[level])
    ensures var added := NodeBytes(Added(node, key, level, data, 0), shape);
      SplicedTo(NodeBytes(node, shape), EntryOffset(node, key[level], shape), EntryBytes(key[level], data, shape.tokenSize), added)
      && |added| <= MAX_LENGTH
  {
    RoomForOne(node, key[level], level, shape);
    LeafSpliced(node, key, level, data, shape);
    LeafFits(Added(node, key, level, data, 0), shape);
  }

  lemma LeafSpliced(node: Tree, key: Key, level: nat, data: seq<Byte>, shape: Shape)
    requires node.Leaf? && level < |key| && |data| == shape.payloadSize
    requires forall i :: 0 <= i < |node.items| ==> |node.items[i].payload| == shape.payloadSize
    ensures SplicedTo(NodeBytes(node, shape), EntryOffset(node, key[level], shape), EntryBytes(key[level], data, shape.tokenSize),
                      NodeBytes(Added(node, key, level, data, 0), shape))
  {
    assert Leaf(node.id, node.items) == node;
    LeafBytesAdded(node.id, node.items, Place(Tokens(node), key[level]), Item(key[level], data), shape);
  }

  // ---- Inner nodes ----

  /** An inner node with a new child, and links that are wide enough for it. */
  ghost function WithLink(node: Tree, child: Child): Tree
    requires node.Node?
  {
    Node(node.id, WidthFor(node.id, node.width, node.children == [], child.tree.id),
         Inserted(node.children, Place(Tokens(node), child.token), child))
  }

  lemma WithLinkFits(node: Tree, child: Child, level: nat, shape: Shape)
    requires Sane(shape) && node.Node? && WellFormed(node, level, shape) && !Present(Tokens(node), child.token)
    requires Delta(node.id, child.tree.id) < ID_LIMIT
    ensures |NodeBytes(WithLink(node, child), shape)| <= MAX_LENGTH
  {
    RoomForOne(node, child.token, level, shape);
    LinkWidthIsCalculated(Delta(node.id, child.tree.id));
    InnerFits(WithLink(node, child), shape);
  }

  /** The bytes of a node with a new child: an entry to insert, or the whole node anew. */
  method LinkedBytes(bytecode: seq<Byte>, bytePos: nat, token: Byte, delta: nat, ghost node: Tree, ghost level: nat,
                     ghost child: Child, shape: Shape)
    returns (insert: bool, pos: nat, bytes: seq<Byte>)
    requires Sane(shape) && WellFormed(node, level, shape) && node.Node? && bytecode == NodeBytes(node, shape)
    requires bytePos == EntryOffset(node, token, shape) && child.token == token
    requires delta == Delta(node.id, child.tree.id) && delta < ID_LIMIT
    ensures insert ==> SplicedTo(bytecode, pos, bytes, NodeBytes(WithLink(node, child), shape))
    ensures !insert ==> bytes == NodeBytes(WithLink(node, child), shape)
  {
    NodeIsEmpty(node, shape);
    var nbytes := CalcLinkBytes(delta);
    if bytecode == [] {
      bytes := FirstEntry(token, delta, node, child, shape);
      insert, pos := true, bytePos;
    } else if bytecode[0] >= nbytes {
      bytes := FurtherEntry(bytecode[0], token, delta, node, child, shape);
      insert, pos := true, 1 + bytePos;
    } else {
      bytes := WiderNode(bytecode, bytePos, bytecode[0], nbytes, token, delta, node, level, child, shape);
      insert, pos := false, 0;
    }
  }

  method FirstEntry(token: Byte, delta: nat, ghost node: Tree, ghost child: Child, shape: Shape)
    returns (bytes: seq<Byte>)
    requires 1 <= shape.tokenSize <= 8 && node.Node? && node.children == []
    requires child.token == token && delta == Delta(node.id, child.tree.id) && delta < ID_LIMIT
    ensures SplicedTo([], 0, bytes, NodeBytes(WithLink(node, child), shape))
  {
    var nbytes := CalcLinkBytes(delta);
    var link := LinkBytes(token, delta, nbytes, shape.tokenSize);
    bytes := [nbytes] + link;
    FirstLink(node, child, shape);
  }

  method FurtherEntry(width: nat, token: Byte, delta: nat, ghost node: Tree, ghost child: Child, shape: Shape)
    returns (bytes: seq<Byte>)
    requires 1 <= shape.tokenSize <= 8 && node.Node? && node.children != [] && 1 <= node.width == width <= 8
    requires child.token == token && delta == Delta(node.id, child.tree.id) && LinkWidth(delta) <= width
    ensures SplicedTo(NodeBytes(node, shape), 1 + EntryOffset(node, token, shape), bytes, NodeBytes(WithLink(node, child), shape))
  {
    bytes := LinkBytes(token, delta, width, shape.tokenSize);
    FurtherLink(node, child, shape);
  }

  /** The first child of a node, with a width of its own choice. */
  lemma FirstLink(node: Tree, child: Child, shape: Shape)
    requires node.Node? && node.children == [] && Delta(node.id, child.tree.id) < ID_LIMIT
    ensures var delta := Delta(node.id, child.tree.id); var width := LinkWidth(delta);
      SplicedTo([], 0, [width] + EntryBytes(child.token, Bytes(delta, width), shape.tokenSize), NodeBytes(WithLink(node, child), shape))
  {
    LinkWidthIsCalculated(Delta(node.id, child.tree.id));
    NodeBytesOfOne(node.id, LinkWidth(Delta(node.id, child.tree.id)), child, shape);
    assert Inserted(node.children, 0, child) == [child];
  }

  /** A further child, in the width that the links have. */
  lemma FurtherLink(node: Tree, child: Child, shape: Shape)
    requires node.Node? && node.children != [] && 1 <= node.width <= 8
    requires LinkWidth(Delta(node.id, child.tree.id)) <= node.width
    ensures var delta := Delta(node.id, child.tree.id);
      SplicedTo(NodeBytes(node, shape), 1 + EntryOffset(node, child.token, shape),
                EntryBytes(child.token, Bytes(delta, node.width), shape.tokenSize), NodeBytes(WithLink(node, child), shape))
  {
    hide Flat, NodeBytes, SplicedTo, Offset, Bytes, Tokens, Inserted;
    NodeBytesAdded(node.id, node.width, node.children, Place(Tokens(node), child.token), child, shape);
  }

  /** All links in a greater width. */
  method WiderNode(bytecode: seq<Byte>, bytePos: nat, width: nat, nbytes: nat, token: Byte, delta: nat,
                   ghost node: Tree, ghost level: nat,
                   ghost child: Child, shape: Shape) returns (bytes: seq<Byte>)
    requires Sane(shape) && WellFormed(node, level, shape) && node.Node? && node.children != []
      && node.width == width < nbytes <= 8
    requires bytecode == NodeBytes(node, shape) && bytePos == EntryOffset(node, token, shape)
    requires child.token == token && delta == Delta(node.id, child.tree.id) && nbytes == LinkWidth(delta)
    ensures bytes == NodeBytes(WithLink(node, child), shape)
  {
    ghost var k, tokens, deltas, entries := Widening(bytecode, bytePos, width, nbytes, token, delta, node, level,
                                                     child, shape);
    bytes := Rebuild(bytecode, bytePos, width, nbytes, token, delta, shape.tokenSize, k, tokens, deltas, entries);
  }

  lemma Widening(bytecode: seq<Byte>, bytePos: nat, width: nat, nbytes: nat, token: Byte, delta: nat, node: Tree,
                 level: nat,
                 child: Child, shape: Shape) returns (k: nat, tokens: seq<Byte>, deltas: seq<nat>, entries: seq<seq<Byte>>)
    requires Sane(shape) && WellFormed(node, level, shape) && node.Node? && node.children != []
      && node.width == width < nbytes <= 8
    requires bytecode == NodeBytes(node, shape) && bytePos == EntryOffset(node, token, shape)
    requires child.token == token && delta == Delta(node.id, child.tree.id) && nbytes == LinkWidth(delta)
    ensures CanWiden(bytecode, bytePos, width, nbytes, token, delta, shape.tokenSize, k, tokens, deltas, entries)
    ensures NodeBytes(WithLink(node, child), shape) == [nbytes] + Flat(entries)
  {
    tokens, deltas := NodeLinks(node, level, bytecode, width, shape);
    k, entries := WiderLinks(node, child, tokens, deltas, bytePos, width, nbytes, token, delta, shape);
  }

  lemma NodeLinks(node: Tree, level: nat, bytecode: seq<Byte>, width: nat, shape: Shape)
    returns (tokens: seq<Byte>, deltas: seq<nat>)
    requires Sane(shape) && WellFormed(node, level, shape) && node.Node? && node.children != [] && node.width == width
    requires bytecode == NodeBytes(node, shape)
    ensures Links(bytecode, shape.tokenSize, width, tokens, deltas) && Narrow(deltas, width)
    ensures tokens == Tokens(node) && deltas == Deltas(node)
  {
    NodeHasLinks(node, shape);
    LinksAreNarrow(node, level, shape);
    tokens, deltas := Tokens(node), Deltas(node);
  }

  lemma WiderLinks(node: Tree, child: Child, tokens: seq<Byte>, deltas: seq<nat>, bytePos: nat, width: nat,
                   nbytes: nat, token: Byte, delta: nat, shape: Shape)
    returns (k: nat, entries: seq<seq<Byte>>)
    requires node.Node? && node.children != [] && node.width == width < nbytes <= 8 && tokens == Tokens(node)
      && deltas == Deltas(node)
    requires bytePos == EntryOffset(node, token, shape)
    requires child.token == token && delta == Delta(node.id, child.tree.id) && nbytes == LinkWidth(delta)
    ensures Widened(entries, tokens, deltas, k, token, delta, nbytes, shape.tokenSize)
    ensures bytePos == Offset(k, shape.tokenSize + width)
    ensures NodeBytes(WithLink(node, child), shape) == [nbytes] + Flat(entries)
  {
    k := Place(Tokens(node), token);
    assert WithLink(node, child) == Node(node.id, nbytes, Inserted(node.children, k, child));
    entries := WidenedNode(node, nbytes, k, child, shape);
  }

  lemma NodeIsEmpty(node: Tree, shape: Shape)
    requires node.Node? && 1 <= node.width <= 8
    ensures NodeBytes(node, shape) == [] <==> node.children == []
    ensures node.children != [] ==> NodeBytes(node, shape)[0] == node.width
  {
  }

  lemma LinksAreNarrow(node: Tree, level: nat, shape: Shape)
    requires WellFormed(node, level, shape) && node.Node?
    ensures Narrow(Deltas(node), node.width)
  {
    forall s | 0 <= s < |node.children|
      ensures Deltas(node)[s] < Pow256(node.width)
    {
      assert LinkOk(node.id, node.width, node.children[s].tree.id);
    }
  }

  // ---- The nodes that AddBack leaves behind ----

  /** One vector has got these bytes, and new ones have been added behind. */
  ghost predicate Grown(vectors: seq<seq<Byte>>, vectors': seq<seq<Byte>>, live: set<nat>, live': set<nat>, id: nat,
                        bytes: seq<Byte>, added: nat)
  {
    VectorsAdded(vectors, vectors', id, bytes, added) && live' == live + Range(|vectors|, added)
  }

  /** The vectors and numbers after a key has been added below a node. */
  ghost predicate KeyBack(vectors: seq<seq<Byte>>, vectors': seq<seq<Byte>>, live: set<nat>, live': set<nat>,
                          node: Tree, key: Key, level: nat, data: seq<Byte>, shape: Shape)
  {
    && level < |key| && (node.Node? ==> level + 1 < |key|)
    && Grown(vectors, vectors', live, live', node.id, NodeBytes(Added(node, key, level, data, |vectors|), shape), |key| - level - 1)
    && NewNodesStored(vectors', node, key, level, data, |vectors|, shape)
  }

  lemma LeafBack(vectors: seq<seq<Byte>>, vectors': seq<seq<Byte>>, live: set<nat>, node: Tree, key: Key, level: nat,
                 data: seq<Byte>, shape: Shape)
    requires node.Leaf? && level + 1 == |key| && node.id < |vectors|
    requires vectors' == vectors[node.id := NodeBytes(Added(node, key, level, data, 0), shape)]
    ensures KeyBack(vectors, vectors', live, live, node, key, level, data, shape)
  {
    assert Added(node, key, level, data, 0) == Added(node, key, level, data, |vectors|);
    assert live == live + Range(|vectors|, 0);
  }

  /** The new child of an inner node, with the rest of the key below it. */
  lemma NewLink(node: Tree, key: Key, level: nat, data: seq<Byte>, newId: nat) returns (child: Child)
    requires level + 1 < |key| && node.Node?
    ensures child == Child(key[level], Chain(key, level + 1, data, newId)) && child.tree.id == newId
    ensures WithLink(node, child) == Added(node, key, level, data, newId)
  {
    child := Child(key[level], Chain(key, level + 1, data, newId));
  }

  /** The new child has been linked, and is still empty. */
  ghost predicate Linked(vectors: seq<seq<Byte>>, linked: seq<seq<Byte>>, live: set<nat>, live': set<nat>, node: Tree,
                         empty: Tree,
                         key: Key, level: nat, data: seq<Byte>, newId: nat, shape: Shape)
  {
    && level + 1 < |key| && node.Node? && node.id < |vectors| == newId && live' == live + {newId}
    && linked == (vectors + [[]])[node.id := NodeBytes(Added(node, key, level, data, newId), shape)]
    && empty.id == newId && (empty.Node? <==> level + 2 < |key|)
    && |linked| == newId + 1 && Added(empty, key, level + 1, data, |linked|) == Chain(key, level + 1, data, newId)
  }

  /** A node lacks the token, which belongs at `bytePos`. */
  ghost predicate Lacks(node: Tree, key: Key, bytePos: nat, level: nat, data: seq<Byte>, shape: Shape) {
    && Sane(shape) && WellFormed(node, level, shape) && level < |key| == shape.realSize && |data| == shape.payloadSize
    && !Present(Tokens(node), key[level]) && bytePos == EntryOffset(node, key[level], shape)
  }

  lemma EmptyLinked(vectors: seq<seq<Byte>>, linked: seq<seq<Byte>>, live: set<nat>, live': set<nat>, node: Tree,
                    child: Child, key: Key,
                    level: nat, data: seq<Byte>, newId: nat, shape: Shape) returns (empty: Tree)
    requires level + 1 < |key| == shape.realSize && node.Node? && node.id < |vectors| == newId
      && live' == live + {newId}
    requires WithLink(node, child) == Added(node, key, level, data, newId) && Sane(shape) && |data| == shape.payloadSize
    requires linked == (vectors + [[]])[node.id := NodeBytes(WithLink(node, child), shape)]
    ensures Linked(vectors, linked, live, live', node, empty, key, level, data, newId, shape)
    ensures Lacks(empty, key, 0, level + 1, data, shape) && NodeBytes(empty, shape) == []
  {
    empty := EmptyNode(newId, |linked|, key, level + 1, data, shape);
  }

  /** The new child has been filled. */
  lemma InnerBack(vectors: seq<seq<Byte>>, linked: seq<seq<Byte>>, vectors': seq<seq<Byte>>, live: set<nat>,
                  linkedLive: set<nat>,
                  live': set<nat>, node: Tree, empty: Tree, key: Key, level: nat, data: seq<Byte>, newId: nat, shape: Shape)
    requires Linked(vectors, linked, live, linkedLive, node, empty, key, level, data, newId, shape)
    requires KeyBack(linked, vectors', linkedLive, live', empty, key, level + 1, data, shape)
    ensures KeyBack(vectors, vectors', live, live', node, key, level, data, shape)
  {
    InnerGrown(vectors, linked, vectors', live, linkedLive, live', node, empty, key, level, data, newId, shape);
    InnerStored(vectors, linked, vectors', live, linkedLive, live', node, empty, key, level, data, newId, shape);
  }

  lemma InnerGrown(vectors: seq<seq<Byte>>, linked: seq<seq<Byte>>, vectors': seq<seq<Byte>>, live: set<nat>,
                   linkedLive: set<nat>,
                   live': set<nat>, node: Tree, empty: Tree, key: Key, level: nat, data: seq<Byte>, newId: nat, shape: Shape)
    requires Linked(vectors, linked, live, linkedLive, node, empty, key, level, data, newId, shape)
    requires KeyBack(linked, vectors', linkedLive, live', empty, key, level + 1, data, shape)
    ensures Grown(vectors, vectors', live, live', node.id, NodeBytes(Added(node, key, level, data, |vectors|), shape), |key| - level - 1)
  {
    LinkIsKept(vectors, linked, vectors', live, linkedLive, live', node.id, NodeBytes(Added(node, key, level, data, |vectors|), shape),
               NodeBytes(Added(empty, key, level + 1, data, |linked|), shape), |key| - (level + 1) - 1);
  }

  lemma InnerStored(vectors: seq<seq<Byte>>, linked: seq<seq<Byte>>, vectors': seq<seq<Byte>>, live: set<nat>,
                    linkedLive: set<nat>,
                    live': set<nat>, node: Tree, empty: Tree, key: Key, level: nat, data: seq<Byte>, newId: nat, shape: Shape)
    requires Linked(vectors, linked, live, linkedLive, node, empty, key, level, data, newId, shape)
    requires KeyBack(linked, vectors', linkedLive, live', empty, key, level + 1, data, shape)
    ensures NewNodesStored(vectors', node, key, level, data, |vectors|, shape)
  {
    ChainIsStored(vectors', node, empty, key, level, data, newId, |linked|, shape);
  }

  lemma OneMoreNumber(live: set<nat>, id: nat, n: nat)
    ensures live + {id} + Range(id + 1, n) == live + Range(id, n + 1)
  {
  }

  lemma ChainIsStored(vectors': seq<seq<Byte>>, node: Tree, empty: Tree, key: Key, level: nat, data: seq<Byte>,
                      newId: nat, next: nat, shape: Shape)
    requires level + 1 < |key| && empty.id == newId < |vectors'| && (empty.Node? <==> level + 2 < |key|)
      && next == newId + 1
    requires Added(empty, key, level + 1, data, next) == Chain(key, level + 1, data, newId)
    requires vectors'[newId] == NodeBytes(Added(empty, key, level + 1, data, next), shape)
    requires NewNodesStored(vectors', empty, key, level + 1, data, next, shape)
    ensures NewNodesStored(vectors', node, key, level, data, newId, shape)
  {
  }

  lemma LinkIsKept(vectors: seq<seq<Byte>>, linked: seq<seq<Byte>>, vectors': seq<seq<Byte>>, live: set<nat>,
                   linkedLive: set<nat>,
                   live': set<nat>, id: nat, bytes: seq<Byte>, newBytes: seq<Byte>, added: nat)
    requires id < |vectors| && linked == (vectors + [[]])[id := bytes] && linkedLive == live + {|vectors|}
    requires Grown(linked, vectors', linkedLive, live', |vectors|, newBytes, added)
    ensures Grown(vectors, vectors', live, live', id, bytes, added + 1)
  {
    assert forall i :: 0 <= i < |vectors| ==> vectors'[i] == linked[i];
    OneMoreNumber(live, |vectors|, added);
  }
}
