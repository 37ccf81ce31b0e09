/** Adding a key to a node of the radix tree, and what it does to the keys that are found. */
module RadixInsert {
  import opened Endian
  import opened RadixNodes
  import opened RadixTrees
  import opened Wrappers

  /** New nodes for the rest of a key, numbered from `id` on. */
  ghost function Chain(key: Key, level: nat, data: seq<Byte>, id: nat): Tree
    requires level < |key|
    decreases |key| - level
  {
    if level + 1 >= |key| then Leaf(id, [Item(key[level], data)])
    else Node(id, 1, [Child(key[level], Chain(key, level + 1, data, id + 1))])
  }

  /** The link width of a node that gets a new child. */
  ghost function WidthFor(id: nat, width: nat, empty: bool, newId: nat): nat {
    var needed := LinkWidth(Delta(id, newId));
    if empty || needed > width then needed else width
  }

  /** The node with the rest of a key added; new nodes are numbered from `newId` on. */
  ghost function Added(node: Tree, key: Key, level: nat, data: seq<Byte>, newId: nat): Tree
    requires level < |key| && (node.Node? ==> level + 1 < |key|)
  {
    var k := Place(Tokens(node), key[level]);
    match node
    case Leaf(id, items) => Leaf(id, Inserted(items, k, Item(key[level], data)))
    case Node(id, width, children) =>
      Node(id, WidthFor(id, width, children == [], newId),
           Inserted(children, k, Child(key[level], Chain(key, level + 1, data, newId))))
  }

  lemma AddedTokens(node: Tree, key: Key, level: nat, data: seq<Byte>, newId: nat)
    requires level < |key| && (node.Node? ==> level + 1 < |key|)
    ensures Tokens(Added(node, key, level, data, newId)) == Inserted(Tokens(node), Place(Tokens(node), key[level]), key[level])
  {
    var added, k := Added(node, key, level, data, newId), Place(Tokens(node), key[level]);
    var expected := Inserted(Tokens(node), k, key[level]);
    forall i | 0 <= i < |expected|
      ensures Tokens(added)[i] == expected[i]
    {
    }
  }

  /** The numbers from `id` on. */
  ghost function Range(id: nat, n: nat): (ids: set<nat>)
    ensures forall x :: x in ids <==> id <= x < id + n
  {
    if n == 0 then {} else Range(id, n - 1) + {id + n - 1}
  }

  lemma {:induction false} ChainIds(key: Key, level: nat, data: seq<Byte>, id: nat)
    requires level < |key|
    ensures Chain(key, level, data, id).id == id && Ids(Chain(key, level, data, id)) == Range(id, |key| - level)
    decreases |key| - level
  {
    if level + 1 < |key| {
      ChainIds(key, level + 1, data, id + 1);
      var rest := Chain(key, level + 1, data, id + 1);
      var node := Chain(key, level, data, id);
      assert node.children == [Child(key[level], rest)];
      assert FirstIds(node, 1) == FirstIds(node, 0) + Ids(rest);
    }
  }

  lemma {:induction false} ChainIsWellFormed(key: Key, level: nat, data: seq<Byte>, id: nat, shape: Shape)
    requires level < |key| == shape.realSize && |data| == shape.payloadSize
    ensures WellFormed(Chain(key, level, data, id), level, shape)
    decreases |key| - level
  {
    if level + 1 < |key| {
      ChainIsWellFormed(key, level + 1, data, id + 1, shape);
      ChainIds(key, level + 1, data, id + 1);
      assert LinkOk(id, 1, id + 1);
    }
  }

  lemma OnlyToken(token: Byte, want: Byte)
    ensures Place([token], token) == 0 && (Present([token], want) <==> want == token)
  {
    assert LowerBound([token], token, 0);
    PlaceIsLowerBound([token], token);
    LowerBoundIsUnique([token], token, 0, Place([token], token));
  }

  ghost predicate SameRest(key: Key, other: Key, level: nat)
    requires level <= |key| == |other|
  {
    SameStart(key, other, level, |key| - level)
  }

  /** New nodes hold the one key. */
  lemma {:induction false} ChainLookup(key: Key, level: nat, data: seq<Byte>, id: nat, other: Key)
    requires level < |key| == |other|
    ensures Lookup(Chain(key, level, data, id), other, level) == if SameRest(key, other, level) then Some(data) else None
    decreases |key| - level
  {
    var node := Chain(key, level, data, id);
    assert Tokens(node) == [key[level]];
    OnlyToken(key[level], other[level]);
    if level + 1 < |key| {
      ChainLookup(key, level + 1, data, id + 1, other);
      if other[level] == key[level] {
        assert SameRest(key, other, level) <==> SameRest(key, other, level + 1);
      }
    }
  }

  // ---- The node with the key added ----

  lemma PlaceOfMember(tokens: seq<Byte>, i: nat)
    requires Ascending(tokens) && i < |tokens|
    ensures Place(tokens, tokens[i]) == i
  {
    PlaceIsLowerBound(tokens, tokens[i]);
    forall j | 0 <= j < |tokens|
      ensures j < i ==> tokens[j] < tokens[i]
      ensures i < j ==> tokens[i] < tokens[j]
    {
      assert Precedes(tokens, if i < j then i else j, if i < j then j else i) || i == j;
    }
    assert LowerBound(tokens, tokens[i], i);
    LowerBoundIsUnique(tokens, tokens[i], i, Place(tokens, tokens[i]));
  }

  /** Where the old members are after an insertion. */
  lemma PlaceInInserted(tokens: seq<Byte>, want: Byte, token: Byte)
    requires Ascending(tokens) && !Present(tokens, want)
    ensures var k := Place(tokens, want); var more := Inserted(tokens, k, want);
      && Ascending(more) && Place(more, want) == k && Present(more, want)
      && (token != want && Present(tokens, token) ==>
           Present(more, token) && Place(more, token) == if Place(tokens, token) < k then Place(tokens, token) else Place(tokens, token) + 1)
      && (token != want && !Present(tokens, token) ==> !Present(more, token))
  {
    var k := Place(tokens, want);
    var more := Inserted(tokens, k, want);
    PlaceIsLowerBound(tokens, want);
    InsertAscending(tokens, want, k);
    PlaceOfMember(more, k);
    if token != want && Present(tokens, token) {
      var i := Place(tokens, token);
      PlaceOfMember(more, if i < k then i else i + 1);
    }
    if token != want && Present(more, token) {
      var j := Place(more, token);
      PlaceOfMember(tokens, if j < k then j else j - 1);
    }
  }

  /** Exactly the added key is found in a new way. */
  lemma AddedLookup(node: Tree, key: Key, level: nat, data: seq<Byte>, newId: nat, other: Key)
    requires level < |key| == |other| && (node.Node? ==> level + 1 < |key|) && (node.Leaf? ==> level + 1 == |key|)
    requires Ascending(Tokens(node)) && !Present(Tokens(node), key[level])
    ensures Lookup(Added(node, key, level, data, newId), other, level)
      == if SameRest(key, other, level) then Some(data) else Lookup(node, other, level)
  {
    if other[level] == key[level] {
      AddedTokens(node, key, level, data, newId);
      PlaceInInserted(Tokens(node), key[level], key[level]);
      MissingHere(node, other, level);
      NewTokenLookup(Added(node, key, level, data, newId), Place(Tokens(node), key[level]), key, level, data, newId,
                     other);
    } else {
      AddedOthers(node, key, level, data, newId, other);
      assert !SameRest(key, other, level);
    }
  }

  lemma AddedOthers(node: Tree, key: Key, level: nat, data: seq<Byte>, newId: nat, other: Key)
    requires level < |key| == |other| && (node.Node? ==> level + 1 < |key|)
    requires Ascending(Tokens(node)) && !Present(Tokens(node), key[level]) && other[level] != key[level]
    ensures Lookup(Added(node, key, level, data, newId), other, level) == Lookup(node, other, level)
  {
    AddedTokens(node, key, level, data, newId);
    PlaceInInserted(Tokens(node), key[level], other[level]);
    if Present(Tokens(node), other[level]) {
      AddedMember(node, key, level, data, newId, Place(Tokens(node), other[level]));
    }
    SameMemberLookup(node, Added(node, key, level, data, newId), Place(Tokens(node), key[level]), other, level);
  }

  /** Member `i` has moved behind the new one. */
  function Moved(i: nat, k: nat): nat {
    if i < k then i else i + 1
  }

  lemma AddedMember(node: Tree, key: Key, level: nat, data: seq<Byte>, newId: nat, i: nat)
    requires level < |key| && (node.Node? ==> level + 1 < |key|) && i < |Tokens(node)|
    ensures SameMember(node, Added(node, key, level, data, newId), i, Moved(i, Place(Tokens(node), key[level])))
  {
  }

  ghost predicate SameMember(node: Tree, added: Tree, i: nat, j: nat) {
    && i < |Tokens(node)| && j < |Tokens(added)|
    && (node.Leaf? ==> added.Leaf? && added.items[j] == node.items[i])
    && (node.Node? ==> added.Node? && added.children[j] == node.children[i])
  }

  /** Two nodes in which a token leads to the same member. */
  lemma SameMemberLookup(node: Tree, added: Tree, k: nat, other: Key, level: nat)
    requires level < |other| && (node.Node? ==> level + 1 < |other|)
    requires Present(Tokens(added), other[level]) <==> Present(Tokens(node), other[level])
    requires Present(Tokens(node), other[level]) ==>
      Place(Tokens(added), other[level]) == Moved(Place(Tokens(node), other[level]), k)
      && SameMember(node, added, Place(Tokens(node), other[level]), Moved(Place(Tokens(node), other[level]), k))
    ensures Lookup(added, other, level) == Lookup(node, other, level)
  {
    if Present(Tokens(node), other[level]) {
      FoundHere(node, Place(Tokens(node), other[level]), other, level);
      FoundHere(added, Place(Tokens(added), other[level]), other, level);
    } else {
      MissingHere(node, other, level);
      MissingHere(added, other, level);
    }
  }

  /** One level of a search. */
  lemma FoundHere(tree: Tree, i: nat, other: Key, level: nat)
    requires level < |other| && Present(Tokens(tree), other[level]) && Place(Tokens(tree), other[level]) == i
    ensures tree.Leaf? ==> Lookup(tree, other, level) == Some(tree.items[i].payload)
    ensures tree.Node? && level + 1 < |other| ==> Lookup(tree, other, level) == Lookup(tree.children[i].tree, other, level + 1)
  {
  }

  lemma MissingHere(tree: Tree, other: Key, level: nat)
    requires level < |other| && !Present(Tokens(tree), other[level])
    ensures Lookup(tree, other, level) == None
  {
  }

  lemma NewTokenLookup(added: Tree, k: nat, key: Key, level: nat, data: seq<Byte>, newId: nat, other: Key)
    requires level < |key| == |other| && other[level] == key[level] && k < |Tokens(added)|
    requires Present(Tokens(added), other[level]) && Place(Tokens(added), other[level]) == k
    requires added.Leaf? ==> level + 1 == |key| && added.items[k].payload == data
    requires added.Node? ==> level + 1 < |key| && added.children[k].tree == Chain(key, level + 1, data, newId)
    ensures Lookup(added, other, level) == if SameRest(key, other, level) then Some(data) else None
  {
    FoundHere(added, k, other, level);
    if added.Node? {
      ChainLookup(key, level + 1, data, newId, other);
      assert SameRest(key, other, level) <==> SameRest(key, other, level + 1);
    } else {
      assert SameRest(key, other, level);
    }
  }

  /** The new node's numbers. */
  lemma AddedIds(node: Tree, key: Key, level: nat, data: seq<Byte>, newId: nat)
    requires level < |key| && (node.Node? ==> level + 1 < |key|) && (node.Leaf? ==> level + 1 == |key|)
    ensures Added(node, key, level, data, newId).id == node.id
    ensures Ids(Added(node, key, level, data, newId)) <= Ids(node) + Range(newId, |key| - level - 1)
  {
    if node.Node? {
      ChainIds(key, level + 1, data, newId);
      var added := Added(node, key, level, data, newId);
      var k := Place(Tokens(node), key[level]);
      forall x | x in Ids(added)
        ensures x in Ids(node) + Range(newId, |key| - level - 1)
      {
        if x != node.id {
          var i := ChildWith(added, x);
          if i != k {
            ChildIds(node, if i < k then i else i - 1);
          }
        }
      }
    }
  }

  lemma AddedIsWellFormed(node: Tree, key: Key, level: nat, data: seq<Byte>, newId: nat, shape: Shape)
    requires WellFormed(node, level, shape) && level < |key| == shape.realSize && |data| == shape.payloadSize
    requires !Present(Tokens(node), key[level]) && (forall x :: x in Ids(node) ==> x < newId)
    requires Delta(node.id, newId) < 0x1_0000_0000_0000_0000
    ensures WellFormed(Added(node, key, level, data, newId), level, shape)
  {
    AddedTokens(node, key, level, data, newId);
    PlaceInInserted(Tokens(node), key[level], key[level]);
    if node.Node? {
      assert node.id in Ids(node);
      AddedChildren(node, key, level, data, newId, shape);
      AddedLinks(node, key, level, data, newId, shape);
      NodeIsWellFormed(Added(node, key, level, data, newId), level, shape);
    } else {
      AddedItems(node, key, level, data, newId, shape);
    }
  }

  lemma NodeIsWellFormed(node: Tree, level: nat, shape: Shape)
    requires node.Node? && Ascending(Tokens(node)) && level + 1 < shape.realSize && 1 <= node.width <= 8
    requires forall i :: 0 <= i < |node.children| ==> LinkOk(node.id, node.width, node.children[i].tree.id)
    requires forall i :: 0 <= i < |node.children| ==>
      WellFormed(node.children[i].tree, level + 1, shape) && node.id !in Ids(node.children[i].tree)
    requires AllApart(node.children)
    ensures WellFormed(node, level, shape)
  {
  }

  lemma AddedItems(node: Tree, key: Key, level: nat, data: seq<Byte>, newId: nat, shape: Shape)
    requires WellFormed(node, level, shape) && level < |key| == shape.realSize && |data| == shape.payloadSize
      && node.Leaf?
    requires Ascending(Tokens(Added(node, key, level, data, newId)))
    ensures WellFormed(Added(node, key, level, data, newId), level, shape)
  {
  }

  lemma AddedLinks(node: Tree, key: Key, level: nat, data: seq<Byte>, newId: nat, shape: Shape)
    requires WellFormed(node, level, shape) && level < |key| == shape.realSize && node.Node? && node.id < newId
    requires Delta(node.id, newId) < 0x1_0000_0000_0000_0000
    ensures var added := Added(node, key, level, data, newId);
      1 <= added.width <= 8 && forall i :: 0 <= i < |added.children| ==> LinkOk(node.id, added.width, added.children[i].tree.id)
  {
    var added := Added(node, key, level, data, newId);
    var k := Place(Tokens(node), key[level]);
    LinkWidthIsCalculated(Delta(node.id, newId));
    ChainIds(key, level + 1, data, newId);
    forall i | 0 <= i < |added.children|
      ensures LinkOk(node.id, added.width, added.children[i].tree.id)
    {
      if i == k {
        Pow256Monotone(LinkWidth(Delta(node.id, newId)), added.width);
      } else {
        assert LinkOk(node.id, node.width, node.children[if i < k then i else i - 1].tree.id);
        Pow256Monotone(node.width, added.width);
      }
    }
  }

  lemma AddedChildren(node: Tree, key: Key, level: nat, data: seq<Byte>, newId: nat, shape: Shape)
    requires WellFormed(node, level, shape) && level < |key| == shape.realSize && |data| == shape.payloadSize
      && node.Node?
    requires forall x :: x in Ids(node) ==> x < newId
    ensures var added := Added(node, key, level, data, newId);
      && (forall i :: 0 <= i < |added.children| ==>
           WellFormed(added.children[i].tree, level + 1, shape) && node.id !in Ids(added.children[i].tree))
      && AllApart(added.children)
  {
    var added := Added(node, key, level, data, newId);
    forall i | 0 <= i < |added.children|
      ensures WellFormed(added.children[i].tree, level + 1, shape) && node.id !in Ids(added.children[i].tree)
    {
      NewOrOldChild(node, key, level, data, newId, shape, i);
    }
    forall i, j | 0 <= i < j < |added.children|
      ensures NothingShared(added.children[i].tree, added.children[j].tree)
    {
      AddedApart(node, key, level, data, newId, shape, i, j);
    }
  }

  /** The child that was at place `i` before, when the new one is at place `k`. */
  function OldPlace(i: nat, k: nat): nat {
    if i < k || i == 0 then i else i - 1
  }

  /** A child is the new chain or one of the old children. */
  lemma NewOrOldChild(node: Tree, key: Key, level: nat, data: seq<Byte>, newId: nat, shape: Shape, i: nat)
    requires WellFormed(node, level, shape) && level < |key| == shape.realSize && |data| == shape.payloadSize
      && node.Node?
    requires (forall x :: x in Ids(node) ==> x < newId) && i <= |node.children|
    ensures var added, k := Added(node, key, level, data, newId), Place(Tokens(node), key[level]);
      && |added.children| == |node.children| + 1 && k <= |node.children|
      && (i == k ==> forall x :: x in Ids(added.children[i].tree) ==> x >= newId)
      && (i != k ==> added.children[i] == node.children[OldPlace(i, k)] && Ids(added.children[i].tree) <= Ids(node))
      && WellFormed(added.children[i].tree, level + 1, shape) && node.id !in Ids(added.children[i].tree)
  {
    var k := Place(Tokens(node), key[level]);
    if i == k {
      ChainIsWellFormed(key, level + 1, data, newId, shape);
      ChainIds(key, level + 1, data, newId);
      assert node.id in Ids(node);
    } else {
      ChildIds(node, OldPlace(i, k));
      assert Ids(node.children[OldPlace(i, k)].tree) <= Ids(node);
    }
  }

  lemma AddedApart(node: Tree, key: Key, level: nat, data: seq<Byte>, newId: nat, shape: Shape, i: nat, j: nat)
    requires WellFormed(node, level, shape) && level < |key| == shape.realSize && |data| == shape.payloadSize
      && node.Node?
    requires (forall x :: x in Ids(node) ==> x < newId) && i < j <= |node.children|
    ensures var added := Added(node, key, level, data, newId);
      |added.children| == |node.children| + 1 && NothingShared(added.children[i].tree, added.children[j].tree)
  {
    var k := Place(Tokens(node), key[level]);
    NewOrOldChild(node, key, level, data, newId, shape, i);
    NewOrOldChild(node, key, level, data, newId, shape, j);
    if i != k && j != k {
      assert NothingShared(node.children[OldPlace(i, k)].tree, node.children[OldPlace(j, k)].tree);
    }
  }
}
