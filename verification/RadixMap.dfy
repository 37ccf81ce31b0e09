/** The radix tree as a map: what adding a key, or changing its payload, does to the stored
    tree and to the map it stands for. */
module RadixMap {
  import opened Endian
  import opened RadixNodes
  import opened RadixTrees
  import opened RadixInsert
  import opened RadixBytes
  import opened VectorLayout
  import opened Wrappers

  type Map = map<Key, seq<Byte>>

  ghost predicate FoundAs(tree: Tree, contents: Map, key: Key)
    requires |key| > 0
  {
    Lookup(tree, key, 0) == if key in contents then Some(contents[key]) else None
  }

  /** The tree finds exactly what the map holds. */
  ghost predicate Agrees(tree: Tree, contents: Map, shape: Shape) {
    && (forall key {:trigger key in contents} :: key in contents ==> |key| == shape.realSize && |contents[key]| == shape.payloadSize)
    && forall key: Key {:trigger FoundAs(tree, contents, key)} :: |key| == shape.realSize > 0 ==> FoundAs(tree, contents, key)
  }

  /** A sound tree in the storage that stands for the map. */
  ghost predicate Stored(vectors: seq<seq<Byte>>, tree: Tree, contents: Map, shape: Shape) {
    Sane(shape) && WellFormed(tree, 0, shape) && Represents(vectors, tree, shape) && Agrees(tree, contents, shape)
  }

  /** The search for the key has come to `sub`. */
  ghost predicate At(vectors: seq<seq<Byte>>, tree: Tree, path: Path, sub: Tree, key: Key, shape: Shape) {
    && |path| < |key| == shape.realSize && Reaches(tree, path, sub) && Follows(tree, path, key, 0)
    && WellFormed(sub, |path|, shape) && Represents(vectors, sub, shape) && Ids(sub) <= Ids(tree)
  }

  lemma AtRoot(vectors: seq<seq<Byte>>, tree: Tree, key: Key, contents: Map, shape: Shape)
    requires Stored(vectors, tree, contents, shape) && |key| == shape.realSize
    ensures At(vectors, tree, [], tree, key, shape)
  {
  }

  /** One level down. */
  lemma AtChild(vectors: seq<seq<Byte>>, tree: Tree, path: Path, sub: Tree, key: Key, shape: Shape)
    requires At(vectors, tree, path, sub, key, shape) && sub.Node? && Present(Tokens(sub), key[|path|])
    ensures var i := Place(Tokens(sub), key[|path|]);
      |path| + 1 < |key| && At(vectors, tree, path + [i], sub.children[i].tree, key, shape)
  {
    var i := Place(Tokens(sub), key[|path|]);
    ReachesOn(tree, path, sub, i);
    assert TakesChild(sub, i, key[|path|]);
    FollowsOn(tree, path, sub, i, key, 0);
    ChildIsSound(vectors, sub, i, |path|, shape);
  }

  /** The search is on the path, whatever the nodes' bytes are. */
  ghost predicate OnPath(tree: Tree, path: Path, sub: Tree, key: Key, contents: Map, shape: Shape) {
    |path| < |key| == shape.realSize && Reaches(tree, path, sub) && Follows(tree, path, key, 0) && Agrees(tree, contents, shape)
  }

  /** A missing token means a missing key. */
  lemma MissingKey(tree: Tree, path: Path, sub: Tree, key: Key, contents: Map, shape: Shape)
    requires OnPath(tree, path, sub, key, contents, shape) && !Present(Tokens(sub), key[|path|])
    ensures key !in contents
  {
    LookupOnPath(tree, path, key, 0, sub, key);
    MissingHere(sub, key, |path|);
    assert FoundAs(tree, contents, key);
  }

  lemma FoundKey(tree: Tree, path: Path, sub: Tree, key: Key, contents: Map, shape: Shape)
    requires OnPath(tree, path, sub, key, contents, shape) && Present(Tokens(sub), key[|path|]) && sub.Leaf?
    ensures key in contents && contents[key] == sub.items[Place(Tokens(sub), key[|path|])].payload
  {
    LookupOnPath(tree, path, key, 0, sub, key);
    FoundHere(sub, Place(Tokens(sub), key[|path|]), key, |path|);
    assert FoundAs(tree, contents, key);
  }

  // ---- Another node at the end of the path ----

  lemma SameKey(key: Key, other: Key, steps: nat)
    requires steps <= |key| == |other| && SameStart(key, other, 0, steps)
    ensures SameRest(key, other, steps) <==> key == other
  {
  }

  /** The map after a node has been replaced by one that finds this key in a new way. */
  lemma AgreesAfter(tree: Tree, path: Path, sub: Tree, changed: Tree, key: Key, data: seq<Byte>, contents: Map,
                    shape: Shape)
    requires OnPath(tree, path, sub, key, contents, shape) && |data| == shape.payloadSize
    requires forall other: Key {:trigger ChangedLookup(sub, changed, key, |path|, data, other)} ::
      |other| == |key| ==> ChangedLookup(sub, changed, key, |path|, data, other)
    ensures Agrees(ReplaceAt(tree, path, sub, changed), contents[key := data], shape)
  {
    forall other: Key | |other| == shape.realSize
      ensures FoundAs(ReplaceAt(tree, path, sub, changed), contents[key := data], other)
    {
      assert FoundAs(tree, contents, other) && ChangedLookup(sub, changed, key, |path|, data, other);
      FoundAfter(tree, path, sub, changed, key, data, contents, other);
    }
  }

  lemma FoundAfter(tree: Tree, path: Path, sub: Tree, changed: Tree, key: Key, data: seq<Byte>, contents: Map,
                   other: Key)
    requires |path| < |key| == |other| && Reaches(tree, path, sub) && Follows(tree, path, key, 0)
    requires FoundAs(tree, contents, other) && ChangedLookup(sub, changed, key, |path|, data, other)
    ensures FoundAs(ReplaceAt(tree, path, sub, changed), contents[key := data], other)
  {
    if SameStart(key, other, 0, |path|) {
      FoundOnPath(tree, path, sub, changed, key, data, contents, other);
    } else {
      LookupUnaffected(tree, path, sub, changed, key, 0, other);
      assert other != key;
    }
  }

  lemma FoundOnPath(tree: Tree, path: Path, sub: Tree, changed: Tree, key: Key, data: seq<Byte>, contents: Map,
                    other: Key)
    requires |path| < |key| == |other| && Reaches(tree, path, sub) && Follows(tree, path, key, 0)
      && SameStart(key, other, 0, |path|)
    requires FoundAs(tree, contents, other) && ChangedLookup(sub, changed, key, |path|, data, other)
    ensures FoundAs(ReplaceAt(tree, path, sub, changed), contents[key := data], other)
  {
    LookupReplaced(tree, path, sub, changed, key, 0, other);
    LookupOnPath(tree, path, key, 0, sub, other);
    SameKey(key, other, |path|);
  }

  /** The changed node finds the key with these data, and all else as before. */
  ghost predicate ChangedLookup(sub: Tree, changed: Tree, key: Key, level: nat, data: seq<Byte>, other: Key)
    requires level < |key| == |other|
  {
    Lookup(changed, other, level) == if SameRest(key, other, level) then Some(data) else Lookup(sub, other, level)
  }

  /** The vectors after a node has changed and new ones have been added behind. */
  ghost predicate VectorsAdded(vectors: seq<seq<Byte>>, vectors': seq<seq<Byte>>, id: nat, bytes: seq<Byte>,
                               added: nat)
  {
    && |vectors'| == |vectors| + added && id < |vectors| && vectors'[id] == bytes
    && forall i :: 0 <= i < |vectors| && i != id ==> vectors'[i] == vectors[i]
  }

  ghost predicate NewNodesStored(vectors: seq<seq<Byte>>, node: Tree, key: Key, level: nat, data: seq<Byte>,
                                 newId: nat, shape: Shape)
    requires level < |key|
  {
    node.Node? ==> level + 1 < |key| && Represents(vectors, Chain(key, level + 1, data, newId), shape)
  }

  /** The node with the key added is stored. */
  lemma AddedIsStored(vectors: seq<seq<Byte>>, vectors': seq<seq<Byte>>, node: Tree, key: Key, level: nat,
                      data: seq<Byte>, shape: Shape)
    requires WellFormed(node, level, shape) && Represents(vectors, node, shape) && level < |key| == shape.realSize
    requires VectorsAdded(vectors, vectors', node.id, NodeBytes(Added(node, key, level, data, |vectors|), shape), |key| - level - 1)
    requires NewNodesStored(vectors', node, key, level, data, |vectors|, shape)
    ensures Represents(vectors', Added(node, key, level, data, |vectors|), shape)
  {
    var added := Added(node, key, level, data, |vectors|);
    if node.Node? {
      forall i | 0 <= i < |added.children|
        ensures Represents(vectors', added.children[i].tree, shape)
      {
        AddedChildStored(vectors, vectors', node, key, level, data, i, shape);
      }
    }
  }

  lemma AddedChildStored(vectors: seq<seq<Byte>>, vectors': seq<seq<Byte>>, node: Tree, key: Key, level: nat,
                         data: seq<Byte>,
                         i: nat, shape: Shape)
    requires WellFormed(node, level, shape) && Represents(vectors, node, shape) && level + 1 < |key| && node.Node?
    requires |vectors'| >= |vectors| && forall i :: 0 <= i < |vectors| && i != node.id ==> vectors'[i] == vectors[i]
    requires Represents(vectors', Chain(key, level + 1, data, |vectors|), shape)
    requires i < |Added(node, key, level, data, |vectors|).children|
    ensures Represents(vectors', Added(node, key, level, data, |vectors|).children[i].tree, shape)
  {
    var j := AddedChild(node, key, level, data, |vectors|, i);
    if i != Place(Tokens(node), key[level]) {
      OtherChildStored(vectors, vectors', node, j, level, shape);
    }
  }

  /** A child of the node with the key added is the new one or an old one. */
  lemma AddedChild(node: Tree, key: Key, level: nat, data: seq<Byte>, newId: nat, i: nat) returns (j: nat)
    requires level + 1 < |key| && node.Node? && i < |Added(node, key, level, data, newId).children|
    ensures var added, k := Added(node, key, level, data, newId), Place(Tokens(node), key[level]);
      && (i == k ==> added.children[i].tree == Chain(key, level + 1, data, newId))
      && (i != k ==> j < |node.children| && added.children[i] == node.children[j])
  {
    var k := Place(Tokens(node), key[level]);
    j := if i <= k then i else i - 1;
  }

  lemma OtherChildStored(vectors: seq<seq<Byte>>, vectors': seq<seq<Byte>>, node: Tree, j: nat, level: nat,
                         shape: Shape)
    requires WellFormed(node, level, shape) && Represents(vectors, node, shape) && node.Node? && j < |node.children|
    requires |vectors'| >= |vectors| && forall i :: 0 <= i < |vectors| && i != node.id ==> vectors'[i] == vectors[i]
    ensures Represents(vectors', node.children[j].tree, shape)
  {
    ChildIsSound(vectors, node, j, level, shape);
    ApartStored(vectors, vectors', node.children[j].tree, node.id, shape);
  }

  lemma ApartStored(vectors: seq<seq<Byte>>, vectors': seq<seq<Byte>>, tree: Tree, id: nat, shape: Shape)
    requires Represents(vectors, tree, shape) && id !in Ids(tree)
    requires |vectors'| >= |vectors| && forall i :: 0 <= i < |vectors| && i != id ==> vectors'[i] == vectors[i]
    ensures Represents(vectors', tree, shape)
  {
    AllIdsStored(vectors, tree, shape);
    RepresentsElsewhere(vectors, vectors', tree, shape);
  }

  lemma AllIdsStored(vectors: seq<seq<Byte>>, tree: Tree, shape: Shape)
    requires Represents(vectors, tree, shape)
    ensures forall x :: x in Ids(tree) ==> x < |vectors|
  {
    forall x | x in Ids(tree)
      ensures x < |vectors|
    {
      IdsAreStored(vectors, tree, shape, x);
    }
  }

  /** The whole tree after a key has been added. */
  lemma KeyAdded(vectors: seq<seq<Byte>>, vectors': seq<seq<Byte>>, tree: Tree, path: Path, sub: Tree, key: Key,
                 data: seq<Byte>,
                 contents: Map, shape: Shape) returns (changed: Tree)
    requires Stored(vectors, tree, contents, shape) && At(vectors, tree, path, sub, key, shape)
      && !Present(Tokens(sub), key[|path|])
    requires |data| == shape.payloadSize && |vectors| + shape.realSize <= 0x1_0000_0000_0000_0000
    requires VectorsAdded(vectors, vectors', sub.id, NodeBytes(Added(sub, key, |path|, data, |vectors|), shape), |key| - |path| - 1)
    requires NewNodesStored(vectors', sub, key, |path|, data, |vectors|, shape)
    ensures changed.id == tree.id && Stored(vectors', changed, contents[key := data], shape)
    ensures Ids(changed) <= Ids(tree) + Range(|vectors|, |key| - |path| - 1)
  {
    var level, n := |path|, |vectors|;
    var added := Added(sub, key, level, data, n);
    AllIdsStored(vectors, tree, shape);
    AddedIds(sub, key, level, data, n);
    AddedIsWellFormed(sub, key, level, data, n, shape);
    AddedIsStored(vectors, vectors', sub, key, level, data, shape);
    ReplacedWellFormed(tree, path, 0, sub, added, level, Range(n, |key| - level - 1), shape);
    KeyAddedStored(vectors, vectors', tree, path, sub, added, shape);
    forall other: Key | |other| == |key|
      ensures ChangedLookup(sub, added, key, level, data, other)
    {
      AddedLookup(sub, key, level, data, n, other);
    }
    AgreesAfter(tree, path, sub, added, key, data, contents, shape);
    changed := ReplaceAt(tree, path, sub, added);
  }

  lemma KeyAddedStored(vectors: seq<seq<Byte>>, vectors': seq<seq<Byte>>, tree: Tree, path: Path, sub: Tree,
                       added: Tree, shape: Shape)
    requires WellFormed(tree, 0, shape) && Represents(vectors, tree, shape) && Reaches(tree, path, sub)
    requires added.id == sub.id && Represents(vectors', added, shape) && |vectors| <= |vectors'|
    requires forall i :: 0 <= i < |vectors| && i != sub.id ==> vectors'[i] == vectors[i]
    ensures Represents(vectors', ReplaceAt(tree, path, sub, added), shape)
  {
    AllIdsStored(vectors, tree, shape);
    assert sub.id in Ids(sub);
    ReplacedRepresented(vectors, vectors', tree, path, 0, sub, added, shape);
  }

  // ---- Another payload ----

  /** The leaf with another payload at place `i`. */
  function WithPayload(leaf: Tree, i: nat, data: seq<Byte>): Tree
    requires leaf.Leaf? && i < |leaf.items|
  {
    Leaf(leaf.id, leaf.items[i := Item(leaf.items[i].token, data)])
  }

  lemma PayloadTokens(leaf: Tree, i: nat, data: seq<Byte>)
    requires leaf.Leaf? && i < |leaf.items|
    ensures Tokens(WithPayload(leaf, i, data)) == Tokens(leaf)
  {
  }

  lemma PayloadLookup(leaf: Tree, key: Key, level: nat, data: seq<Byte>, other: Key)
    requires leaf.Leaf? && level + 1 == |key| == |other| && Present(Tokens(leaf), key[level])
    ensures ChangedLookup(leaf, WithPayload(leaf, Place(Tokens(leaf), key[level]), data), key, level, data, other)
  {
    var i := Place(Tokens(leaf), key[level]);
    var changed := WithPayload(leaf, i, data);
    PayloadTokens(leaf, i, data);
    if Present(Tokens(leaf), other[level]) {
      FoundHere(leaf, Place(Tokens(leaf), other[level]), other, level);
      FoundHere(changed, Place(Tokens(leaf), other[level]), other, level);
      assert SameRest(key, other, level) <==> other[level] == key[level];
    } else {
      MissingHere(leaf, other, level);
      MissingHere(changed, other, level);
      assert !SameRest(key, other, level);
    }
  }

  /** The whole tree after a payload has been overwritten. */
  lemma PayloadChanged(vectors: seq<seq<Byte>>, vectors': seq<seq<Byte>>, tree: Tree, path: Path, sub: Tree, key: Key,
                       data: seq<Byte>,
                       contents: Map, shape: Shape) returns (changed: Tree)
    requires Stored(vectors, tree, contents, shape) && At(vectors, tree, path, sub, key, shape)
      && Present(Tokens(sub), key[|path|])
    requires sub.Leaf? && |path| + 1 == |key| && |data| == shape.payloadSize
    requires VectorsAdded(vectors, vectors', sub.id, NodeBytes(WithPayload(sub, Place(Tokens(sub), key[|path|]), data), shape), 0)
    ensures changed.id == tree.id && Stored(vectors', changed, contents[key := data], shape)
      && Ids(changed) <= Ids(tree)
  {
    var leaf := WithPayload(sub, Place(Tokens(sub), key[|path|]), data);
    PayloadTokens(sub, Place(Tokens(sub), key[|path|]), data);
    ReplacedWellFormed(tree, path, 0, sub, leaf, |path|, {}, shape);
    KeyAddedStored(vectors, vectors', tree, path, sub, leaf, shape);
    PayloadAgrees(tree, path, sub, key, data, contents, shape);
    changed := ReplaceAt(tree, path, sub, leaf);
  }

  lemma PayloadAgrees(tree: Tree, path: Path, sub: Tree, key: Key, data: seq<Byte>, contents: Map, shape: Shape)
    requires OnPath(tree, path, sub, key, contents, shape) && Present(Tokens(sub), key[|path|])
    requires sub.Leaf? && |path| + 1 == |key| && |data| == shape.payloadSize
    ensures Agrees(ReplaceAt(tree, path, sub, WithPayload(sub, Place(Tokens(sub), key[|path|]), data)), contents[key := data], shape)
  {
    var changed := WithPayload(sub, Place(Tokens(sub), key[|path|]), data);
    forall other: Key | |other| == |key|
      ensures ChangedLookup(sub, changed, key, |path|, data, other)
    {
      PayloadLookup(sub, key, |path|, data, other);
    }
    AgreesAfter(tree, path, sub, changed, key, data, contents, shape);
  }

  // ---- Sizes ----

  lemma LeafFits(node: Tree, shape: Shape)
    requires Sane(shape) && node.Leaf? && |Tokens(node)| <= 256
    requires forall i :: 0 <= i < |node.items| ==> |node.items[i].payload| == shape.payloadSize
    ensures |NodeBytes(node, shape)| <= MAX_LENGTH
  {
    LeafHasEntries(node, shape);
    OffsetBound(|Tokens(node)|, shape.tokenSize + shape.payloadSize);
  }

  lemma InnerFits(node: Tree, shape: Shape)
    requires Sane(shape) && node.Node? && node.children != [] && 1 <= node.width <= 8 && |Tokens(node)| <= 256
    ensures |NodeBytes(node, shape)| <= MAX_LENGTH
  {
    hide Offset, NodeBytes, Flat;
    NodeHasLinks(node, shape);
    OffsetBound(|Tokens(node)|, shape.tokenSize + node.width);
  }

  lemma OffsetBound(n: nat, size: nat)
    requires n <= 256 && size <= 255
    ensures Offset(n, size) <= 65280
  {
    OffsetMonotone(n, 256, size);
    OffsetIsProduct(256, size);
  }
}
