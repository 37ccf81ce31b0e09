/** radixtree/RadixTree-Vector.hh: one level of a search, on the bytes of the node. */
module RadixSearching {
  import opened Endian
  import opened RadixNodes
  import opened RadixTrees
  import opened RadixBytes
  import opened RadixAdding

  /** Looks for a token among a node's links; `step` leads from the node's number to the child's. */
  method FindLink(bytecode: seq<Byte>, want: Byte, ghost node: Tree, ghost level: nat, shape: Shape)
    returns (found: bool, bytePos: nat, step: nat)
    requires Sane(shape) && WellFormed(node, level, shape) && node.Node? && bytecode == NodeBytes(node, shape)
    ensures found <==> Present(Tokens(node), want)
    ensures !found ==> bytePos == EntryOffset(node, want, shape)
    ensures found ==> node.id + step == node.children[Place(Tokens(node), want)].tree.id
  {
    NodeIsEmpty(node, shape);
    if bytecode == [] {
      found, bytePos, step := false, 0, 0;
      NothingPresent(node, want);
    } else {
      found, bytePos, step := FindAmongLinks(bytecode, bytecode[0], want, node, level, shape);
    }
  }

  method FindAmongLinks(bytecode: seq<Byte>, width: nat, want: Byte, ghost node: Tree, ghost level: nat, shape: Shape)
    returns (found: bool, bytePos: nat, step: nat)
    requires Sane(shape) && WellFormed(node, level, shape) && node.Node? && bytecode == NodeBytes(node, shape)
    requires node.children != [] && width == node.width
    ensures found <==> Present(Tokens(node), want)
    ensures !found ==> bytePos == EntryOffset(node, want, shape)
    ensures found ==> node.id + step == node.children[Place(Tokens(node), want)].tree.id
  {
    ghost var tokens, deltas := NodeLinks(node, level, bytecode, width, shape);
    found, bytePos, step := FollowLink(bytecode, width, want, tokens, deltas, shape.tokenSize);
    LinkOffset(node, want, tokens, width, bytePos, shape);
    if found {
      LinkIsStep(node, level, Place(tokens, want), shape);
    }
  }

  lemma LinkOffset(node: Tree, want: Byte, tokens: seq<Byte>, width: nat, at: nat, shape: Shape)
    requires node.Node? && node.children != [] && tokens == Tokens(node) && width == node.width
    requires at == Offset(Place(tokens, want), shape.tokenSize + width)
    ensures at == EntryOffset(node, want, shape)
  {
  }

  lemma NothingPresent(node: Tree, want: Byte)
    requires node.Node? && node.children == []
    ensures !Present(Tokens(node), want)
  {
  }

  lemma LinkIsStep(node: Tree, level: nat, i: nat, shape: Shape)
    requires WellFormed(node, level, shape) && node.Node? && i < |node.children|
    ensures node.id + 1 + Deltas(node)[i] == node.children[i].tree.id
  {
    assert LinkOk(node.id, node.width, node.children[i].tree.id);
  }

  method FollowLink(bytecode: seq<Byte>, width: nat, want: Byte, ghost tokens: seq<Byte>, ghost deltas: seq<nat>,
                    tokenSize: nat)
    returns (found: bool, bytePos: nat, step: nat)
    requires Links(bytecode, tokenSize, width, tokens, deltas) && Narrow(deltas, width) && Ascending(tokens)
    ensures found <==> Present(tokens, want)
    ensures bytePos == Offset(Place(tokens, want), tokenSize + width)
    ensures found ==> step == 1 + deltas[Place(tokens, want)]
  {
    var focus;
    found, focus := FindToken(bytecode, 1, tokenSize + width, tokenSize, want, tokens);
    bytePos, step := focus - 1, 0;
    if found {
      var link := ReadLink(bytecode, focus + tokenSize, width, deltas[Place(tokens, want)]);
      step := 1 + link;
    }
  }

  /** Looks for a token among a leaf's payloads. */
  method FindPayload(bytecode: seq<Byte>, want: Byte, ghost node: Tree, ghost level: nat, shape: Shape)
    returns (found: bool, bytePos: nat)
    requires Sane(shape) && WellFormed(node, level, shape) && node.Leaf? && bytecode == NodeBytes(node, shape)
    ensures found <==> Present(Tokens(node), want)
    ensures bytePos == EntryOffset(node, want, shape)
    ensures found ==> PayloadAt(bytecode, bytePos + shape.tokenSize, node.items[Place(Tokens(node), want)].payload)
  {
    LeafHasEntries(node, shape);
    found, bytePos := FindToken(bytecode, 0, shape.tokenSize + shape.payloadSize, shape.tokenSize, want, Tokens(node));
    PayloadFound(bytecode, node, want, bytePos, shape);
  }

  lemma PayloadFound(bytecode: seq<Byte>, node: Tree, want: Byte, at: nat, shape: Shape)
    requires node.Leaf? && bytecode == NodeBytes(node, shape)
    requires forall i :: 0 <= i < |node.items| ==> |node.items[i].payload| == shape.payloadSize
    requires at == 0 + Offset(Place(Tokens(node), want), shape.tokenSize + shape.payloadSize)
    ensures at == EntryOffset(node, want, shape)
    ensures Present(Tokens(node), want) ==> PayloadAt(bytecode, at + shape.tokenSize, node.items[Place(Tokens(node), want)].payload)
  {
    if Present(Tokens(node), want) {
      LeafPayload(node, shape, Place(Tokens(node), want));
    }
  }

  ghost predicate PayloadAt(bytecode: seq<Byte>, p: nat, payload: seq<Byte>) {
    p + |payload| <= |bytecode| && bytecode[p..p + |payload|] == payload
  }

  // ---- Deleting ----

  /** The node's own number is not among its children's. */
  lemma OwnNumber(node: Tree, level: nat, shape: Shape)
    requires WellFormed(node, level, shape) && node.Node?
    ensures node.id !in FirstIds(node, |node.children|)
  {
    if node.id in FirstIds(node, |node.children|) {
      var i := AmongFirst(node, |node.children|, node.id);
      assert false;
    }
  }

  /** All vectors of a tree are there, and none has been freed. */
  ghost predicate Whole(vectors: seq<seq<Byte>>, node: Tree, level: nat, id: nat, live: set<nat>, shape: Shape) {
    && Sane(shape) && WellFormed(node, level, shape) && Represents(vectors, node, shape) && node.id == id && Ids(node) <= live
    && id < |vectors|
  }

  /** The numbers that are left when the first children have been deleted. */
  ghost function FirstDeleted(live: set<nat>, node: Tree, n: nat): set<nat>
    requires node.Node? && n <= |node.children|
  {
    live - FirstIds(node, n)
  }

  lemma NoneDeleted(live: set<nat>, node: Tree)
    requires node.Node?
    ensures FirstDeleted(live, node, 0) == live
  {
  }

  /** A child is whole as long as its own turn has not come. */
  lemma ChildIsWhole(vectors: seq<seq<Byte>>, node: Tree, level: nat, id: nat, a: nat, live: set<nat>, rest: set<nat>,
                     shape: Shape)
    requires Whole(vectors, node, level, id, live, shape) && node.Node? && a < |node.children|
      && rest == FirstDeleted(live, node, a)
    ensures rest - Ids(node.children[a].tree) == FirstDeleted(live, node, a + 1)
    ensures Whole(vectors, node.children[a].tree, level + 1, node.children[a].tree.id, rest, shape)
    ensures id in rest - Ids(node.children[a].tree)
  {
    ChildIsSound(vectors, node, a, level, shape);
    forall x | x in FirstIds(node, a)
      ensures x != node.id && x !in Ids(node.children[a].tree)
    {
      NotAmongFirst(node, level, a, x, shape);
    }
    assert node.id in Ids(node);
  }

  lemma NotAmongFirst(node: Tree, level: nat, a: nat, x: nat, shape: Shape)
    requires WellFormed(node, level, shape) && node.Node? && a < |node.children| && x in FirstIds(node, a)
    ensures x != node.id && x !in Ids(node.children[a].tree)
  {
    var i := AmongFirst(node, a, x);
    assert NothingShared(node.children[i].tree, node.children[a].tree);
  }

  /** How many children a node has. */
  method CountNodes(bytecode: seq<Byte>, ghost node: Tree, ghost level: nat, shape: Shape) returns (n: nat)
    requires Sane(shape) && WellFormed(node, level, shape) && node.Node? && bytecode == NodeBytes(node, shape)
    ensures n == |node.children|
  {
    NodeIsEmpty(node, shape);
    n := 0;
    if bytecode != [] {
      ghost var tokens, deltas := NodeLinks(node, level, bytecode, bytecode[0], shape);
      n := CountEntries(bytecode, bytecode[0], tokens, deltas, shape.tokenSize);
    }
  }

  method CountEntries(bytecode: seq<Byte>, width: nat, ghost tokens: seq<Byte>, ghost deltas: seq<nat>, tokenSize: nat)
    returns (n: nat)
    requires Links(bytecode, tokenSize, width, tokens, deltas)
    ensures n == |tokens|
  {
    OffsetDivides(|tokens|, tokenSize + width);
    n := (|bytecode| - 1) / (tokenSize + width);
  }

  /** The number of child `a`. */
  method ChildNumber(bytecode: seq<Byte>, id: nat, a: nat, ghost node: Tree, ghost level: nat, shape: Shape)
    returns (child: nat)
    requires Sane(shape) && WellFormed(node, level, shape) && node.Node? && bytecode == NodeBytes(node, shape)
    requires a < |node.children| && id == node.id
    ensures child == node.children[a].tree.id
  {
    NodeIsEmpty(node, shape);
    ghost var tokens, deltas := NodeLinks(node, level, bytecode, bytecode[0], shape);
    var link := LinkOf(bytecode, bytecode[0], a, tokens, deltas, shape.tokenSize);
    child := id + 1 + link;
    LinkIsStep(node, level, a, shape);
  }

  method LinkOf(bytecode: seq<Byte>, width: nat, a: nat, ghost tokens: seq<Byte>, ghost deltas: seq<nat>,
                tokenSize: nat) returns (link: nat)
    requires Links(bytecode, tokenSize, width, tokens, deltas) && Narrow(deltas, width) && a < |deltas|
    ensures link == deltas[a]
  {
    OffsetIsProduct(a, tokenSize + width);
    link := ReadLink(bytecode, 1 + a * (tokenSize + width) + tokenSize, width, deltas[a]);
  }
}
