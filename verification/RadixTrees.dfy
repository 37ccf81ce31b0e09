/** The radix tree as a value: what its nodes spell as bytes, which key it finds, and what
    adding a key does to it. */
module RadixTrees {
  import opened Endian
  import opened RadixNodes
  import opened Wrappers

  datatype Item = Item(token: Byte, payload: seq<Byte>)

  datatype Child = Child(token: Byte, tree: Tree)

  /** A node is kept under its number; `width` bytes hold a link. */
  datatype Tree = Leaf(id: nat, items: seq<Item>) | Node(id: nat, width: nat, children: seq<Child>)

  /** The template parameters. */
  datatype Shape = Shape(realSize: nat, payloadSize: nat, tokenSize: nat)

  ghost predicate Sane(shape: Shape) {
    shape.realSize > 0 && 1 <= shape.tokenSize <= 8 && shape.tokenSize + shape.payloadSize <= 255
  }

  type Key = seq<Byte>

  function Tokens(tree: Tree): (tokens: seq<Byte>)
    ensures |tokens| == if tree.Leaf? then |tree.items| else |tree.children|
    ensures tree.Leaf? ==> forall i :: 0 <= i < |tokens| ==> tokens[i] == tree.items[i].token
    ensures tree.Node? ==> forall i :: 0 <= i < |tokens| ==> tokens[i] == tree.children[i].token
  {
    match tree
    case Leaf(_, items) => seq(|items|, i requires 0 <= i < |items| => items[i].token)
    case Node(_, _, children) => seq(|children|, i requires 0 <= i < |children| => children[i].token)
  }

  /** Where a token is or belongs. */
  ghost function Place(tokens: seq<Byte>, want: Byte): (k: nat)
    ensures k <= |tokens|
  {
    if k: nat :| LowerBound(tokens, want, k) then k else 0
  }

  ghost predicate Present(tokens: seq<Byte>, want: Byte) {
    Place(tokens, want) < |tokens| && tokens[Place(tokens, want)] == want
  }

  lemma {:induction false} PlaceExists(tokens: seq<Byte>, want: Byte) returns (k: nat)
    requires Ascending(tokens)
    ensures LowerBound(tokens, want, k)
    decreases |tokens|
  {
    if tokens == [] || tokens[|tokens| - 1] < want {
      k := |tokens|;
      forall i | 0 <= i < |tokens|
        ensures tokens[i] < want
      {
        if i < |tokens| - 1 {
          assert Precedes(tokens, i, |tokens| - 1);
        }
      }
    } else {
      var front := tokens[..|tokens| - 1];
      forall i, j | 0 <= i < j < |front|
        ensures Precedes(front, i, j)
      {
        assert Precedes(tokens, i, j);
      }
      k := PlaceExists(front, want);
      forall i | k <= i < |tokens|
        ensures tokens[i] >= want
      {
        if i < |tokens| - 1 {
          assert front[i] >= want;
        }
      }
      assert forall i :: 0 <= i < k ==> tokens[i] == front[i];
    }
  }

  lemma PlaceIsLowerBound(tokens: seq<Byte>, want: Byte)
    requires Ascending(tokens)
    ensures LowerBound(tokens, want, Place(tokens, want))
  {
    var k := PlaceExists(tokens, want);
  }

  // ---- Numbers ----

  ghost function Ids(tree: Tree): (ids: set<nat>)
    ensures tree.id in ids
    decreases tree, 1, 0
  {
    if tree.Leaf? then {tree.id} else {tree.id} + FirstIds(tree, |tree.children|)
  }

  /** The numbers in a node's first children. */
  ghost function FirstIds(tree: Tree, n: nat): set<nat>
    requires tree.Node? && n <= |tree.children|
    decreases tree, 0, n
  {
    if n == 0 then {} else FirstIds(tree, n - 1) + Ids(tree.children[n - 1].tree)
  }

  lemma {:induction false} FirstIdsHold(tree: Tree, n: nat, i: nat)
    requires tree.Node? && i < n <= |tree.children|
    ensures Ids(tree.children[i].tree) <= FirstIds(tree, n)
  {
    if i < n - 1 {
      FirstIdsHold(tree, n - 1, i);
    }
  }

  lemma {:induction false} AmongFirst(tree: Tree, n: nat, x: nat) returns (i: nat)
    requires tree.Node? && n <= |tree.children| && x in FirstIds(tree, n)
    ensures i < n && x in Ids(tree.children[i].tree)
  {
    if x in Ids(tree.children[n - 1].tree) {
      i := n - 1;
    } else {
      i := AmongFirst(tree, n - 1, x);
    }
  }

  lemma ChildIds(tree: Tree, i: nat)
    requires tree.Node? && i < |tree.children|
    ensures Ids(tree.children[i].tree) <= Ids(tree)
  {
    FirstIdsHold(tree, |tree.children|, i);
  }

  /** A number other than the node's own is in one of its children. */
  lemma ChildWith(tree: Tree, x: nat) returns (i: nat)
    requires tree.Node? && x in Ids(tree) && x != tree.id
    ensures i < |tree.children| && x in Ids(tree.children[i].tree)
  {
    i := AmongFirst(tree, |tree.children|, x);
  }

  // ---- Bytes ----

  /** The relative link to a child. */
  function Delta(id: nat, child: nat): nat {
    if child > id then child - id - 1 else 0
  }

  function LeafEntries(items: seq<Item>, tokenSize: nat): (entries: seq<seq<Byte>>)
    ensures |entries| == |items|
    ensures forall i :: 0 <= i < |items| ==> entries[i] == EntryBytes(items[i].token, items[i].payload, tokenSize)
  {
    seq(|items|, i requires 0 <= i < |items| => EntryBytes(items[i].token, items[i].payload, tokenSize))
  }

  function LinkEntry(id: nat, width: nat, token: Byte, child: nat, tokenSize: nat): (bytes: seq<Byte>)
    ensures |bytes| == tokenSize + width
  {
    EntryBytes(token, Bytes(Delta(id, child), width), tokenSize)
  }

  function ChildEntries(id: nat, width: nat, children: seq<Child>, tokenSize: nat): (entries: seq<seq<Byte>>)
    ensures |entries| == |children|
    ensures forall i :: 0 <= i < |children| ==> entries[i] == LinkEntry(id, width, children[i].token, children[i].tree.id, tokenSize)
  {
    seq(|children|, i requires 0 <= i < |children| => LinkEntry(id, width, children[i].token, children[i].tree.id, tokenSize))
  }

  /** The bytes of one node. */
  function NodeBytes(tree: Tree, shape: Shape): seq<Byte> {
    match tree
    case Leaf(_, items) => Flat(LeafEntries(items, shape.tokenSize))
    case Node(id, width, children) =>
      if children == [] || width > 255 then [] else [width] + Flat(ChildEntries(id, width, children, shape.tokenSize))
  }

  /** All nodes are stored under their numbers. */
  ghost predicate Represents(contents: seq<seq<Byte>>, tree: Tree, shape: Shape) {
    && tree.id < |contents| && contents[tree.id] == NodeBytes(tree, shape)
    && (tree.Node? ==> forall i :: 0 <= i < |tree.children| ==> Represents(contents, tree.children[i].tree, shape))
  }

  // ---- Shape ----

  /** A link reaches forward, and its width holds it. */
  ghost predicate LinkOk(id: nat, width: nat, child: nat) {
    child > id && Delta(id, child) < Pow256(width)
  }

  /** The trees have no node in common. */
  ghost predicate NothingShared(a: Tree, b: Tree) {
    Ids(a) !! Ids(b)
  }

  ghost predicate AllApart(children: seq<Child>) {
    forall i, j {:trigger NothingShared(children[i].tree, children[j].tree)} :: 0 <= i < j < |children| ==>
      NothingShared(children[i].tree, children[j].tree)
  }

  /** Sorted nodes of the right kind at every level, links that reach forward, and no number
      used twice. */
  ghost predicate WellFormed(tree: Tree, level: nat, shape: Shape) {
    && Ascending(Tokens(tree))
    && match tree
       case Leaf(_, items) =>
         level + 1 == shape.realSize && forall i :: 0 <= i < |items| ==> |items[i].payload| == shape.payloadSize
       case Node(id, width, children) =>
         && level + 1 < shape.realSize && 1 <= width <= 8
         && (forall i :: 0 <= i < |children| ==> LinkOk(id, width, children[i].tree.id))
         && (forall i :: 0 <= i < |children| ==> WellFormed(children[i].tree, level + 1, shape) && id !in Ids(children[i].tree))
         && AllApart(children)
  }

  /** Nothing else matters to a tree than the vectors of its own nodes. */
  lemma RepresentsElsewhere(contents: seq<seq<Byte>>, contents': seq<seq<Byte>>, tree: Tree, shape: Shape)
    requires Represents(contents, tree, shape)
    requires forall x :: x in Ids(tree) ==> x < |contents| && x < |contents'| && contents'[x] == contents[x]
    ensures Represents(contents', tree, shape)
  {
    if tree.Node? {
      forall i | 0 <= i < |tree.children|
        ensures Represents(contents', tree.children[i].tree, shape)
      {
        ChildIds(tree, i);
        RepresentsElsewhere(contents, contents', tree.children[i].tree, shape);
      }
    }
  }

  lemma IdsAreStored(contents: seq<seq<Byte>>, tree: Tree, shape: Shape, x: nat)
    requires Represents(contents, tree, shape) && x in Ids(tree)
    ensures x < |contents|
  {
    if tree.Node? && x != tree.id {
      var i := ChildWith(tree, x);
      IdsAreStored(contents, tree.children[i].tree, shape, x);
    }
  }

  // ---- Finding ----

  /** The payload of a key. */
  ghost function Lookup(tree: Tree, key: Key, level: nat): Option<seq<Byte>>
    requires level < |key|
    decreases |key| - level
  {
    var k := Place(Tokens(tree), key[level]);
    if !Present(Tokens(tree), key[level]) then None
    else if tree.Leaf? then Some(tree.items[k].payload)
    else if level + 1 < |key| then Lookup(tree.children[k].tree, key, level + 1)
    else None
  }

  /** Numbers of the children to take, one for each level. */
  type Path = seq<nat>

  /** The path leads to `sub`. */
  ghost predicate Reaches(tree: Tree, path: Path, sub: Tree)
    decreases |path|
  {
    if path == [] then tree == sub
    else tree.Node? && path[0] < |tree.children| && Reaches(tree.children[path[0]].tree, path[1..], sub)
  }

  /** A search for the key takes this path. */
  ghost predicate Follows(tree: Tree, path: Path, key: Key, level: nat)
    requires level + |path| <= |key|
    decreases |path|
  {
    path == [] || (TakesChild(tree, path[0], key[level]) && Follows(tree.children[path[0]].tree, path[1..], key, level + 1))
  }

  ghost predicate TakesChild(tree: Tree, i: nat, want: Byte) {
    tree.Node? && i < |tree.children| && Place(Tokens(tree), want) == i && tree.children[i].token == want
  }

  /** One level more. */
  lemma {:induction false} ReachesOn(tree: Tree, path: Path, sub: Tree, i: nat)
    requires Reaches(tree, path, sub) && sub.Node? && i < |sub.children|
    ensures Reaches(tree, path + [i], sub.children[i].tree)
    decreases |path|
  {
    if path == [] {
      assert [i][1..] == [];
    } else {
      assert (path + [i])[1..] == path[1..] + [i];
      ReachesOn(tree.children[path[0]].tree, path[1..], sub, i);
    }
  }

  lemma {:induction false} FollowsOn(tree: Tree, path: Path, sub: Tree, i: nat, key: Key, level: nat)
    requires level + |path| < |key| && Reaches(tree, path, sub) && Follows(tree, path, key, level)
    requires TakesChild(sub, i, key[level + |path|])
    ensures Follows(tree, path + [i], key, level)
    decreases |path|
  {
    if path == [] {
      assert [i][1..] == [];
    } else {
      assert (path + [i])[1..] == path[1..] + [i];
      FollowsOn(tree.children[path[0]].tree, path[1..], sub, i, key, level + 1);
    }
  }

  lemma ChildIsSound(contents: seq<seq<Byte>>, tree: Tree, i: nat, level: nat, shape: Shape)
    requires WellFormed(tree, level, shape) && Represents(contents, tree, shape) && tree.Node? && i < |tree.children|
    ensures WellFormed(tree.children[i].tree, level + 1, shape) && Represents(contents, tree.children[i].tree, shape)
    ensures Ids(tree.children[i].tree) <= Ids(tree)
  {
    ChildIds(tree, i);
  }

  /** The two keys take the same path. */
  ghost predicate SameStart(key: Key, other: Key, level: nat, steps: nat)
    requires level + steps <= |key| && level + steps <= |other|
  {
    forall i :: level <= i < level + steps ==> key[i] == other[i]
  }

  lemma StepLookup(tree: Tree, i: nat, other: Key, level: nat)
    requires level + 1 < |other| && TakesChild(tree, i, other[level])
    ensures Lookup(tree, other, level) == Lookup(tree.children[i].tree, other, level + 1)
  {
  }

  /** A key with the same start is found in the tree exactly as in the node at the end of the path. */
  lemma {:induction false} LookupOnPath(tree: Tree, path: Path, key: Key, level: nat, sub: Tree, other: Key)
    requires level + |path| < |key| == |other| && Reaches(tree, path, sub) && Follows(tree, path, key, level)
    requires SameStart(key, other, level, |path|)
    ensures Lookup(tree, other, level) == Lookup(sub, other, level + |path|)
    decreases |path|
  {
    if path != [] {
      assert other[level] == key[level];
      StepLookup(tree, path[0], other, level);
      LookupOnPath(tree.children[path[0]].tree, path[1..], key, level + 1, sub, other);
    }
  }

  // ---- Replacing a node ----

  /** The node with another child at place `i`. */
  function WithChild(tree: Tree, i: nat, sub: Tree): Tree
    requires tree.Node? && i < |tree.children|
  {
    Node(tree.id, tree.width, tree.children[i := Child(tree.children[i].token, sub)])
  }

  /** The tree with another node at the end of the path. */
  ghost function ReplaceAt(tree: Tree, path: Path, from: Tree, sub: Tree): Tree
    requires Reaches(tree, path, from)
    decreases |path|
  {
    if path == [] then sub else WithChild(tree, path[0], ReplaceAt(tree.children[path[0]].tree, path[1..], from, sub))
  }

  lemma ReplacedTokens(tree: Tree, i: nat, sub: Tree)
    requires tree.Node? && i < |tree.children|
    ensures Tokens(WithChild(tree, i, sub)) == Tokens(tree)
  {
  }

  /** The path leads to the new node, by the same tokens. */
  lemma {:induction false} ReplacedReaches(tree: Tree, path: Path, from: Tree, sub: Tree, key: Key, level: nat)
    requires level + |path| <= |key| && Reaches(tree, path, from) && Follows(tree, path, key, level)
    ensures Reaches(ReplaceAt(tree, path, from, sub), path, sub)
    ensures Follows(ReplaceAt(tree, path, from, sub), path, key, level)
    decreases |path|
  {
    if path != [] {
      var child := tree.children[path[0]].tree;
      ReplacedReaches(child, path[1..], from, sub, key, level + 1);
      ReplacedTokens(tree, path[0], ReplaceAt(child, path[1..], from, sub));
    }
  }

  /** Keys with the same start are found in the new node. */
  lemma LookupReplaced(tree: Tree, path: Path, from: Tree, sub: Tree, key: Key, level: nat, other: Key)
    requires level + |path| < |key| == |other| && Reaches(tree, path, from) && Follows(tree, path, key, level)
    requires SameStart(key, other, level, |path|)
    ensures Lookup(ReplaceAt(tree, path, from, sub), other, level) == Lookup(sub, other, level + |path|)
  {
    ReplacedReaches(tree, path, from, sub, key, level);
    LookupOnPath(ReplaceAt(tree, path, from, sub), path, key, level, sub, other);
  }

  /** All other keys are found as before. */
  lemma {:induction false} LookupUnaffected(tree: Tree, path: Path, from: Tree, sub: Tree, key: Key, level: nat,
                                            other: Key)
    requires level + |path| < |key| == |other| && Reaches(tree, path, from) && Follows(tree, path, key, level)
    requires !SameStart(key, other, level, |path|)
    ensures Lookup(ReplaceAt(tree, path, from, sub), other, level) == Lookup(tree, other, level)
    decreases |path|
  {
    if path != [] {
      var child := tree.children[path[0]].tree;
      var changed := ReplaceAt(child, path[1..], from, sub);
      if other[level] == key[level] {
        LookupUnaffected(child, path[1..], from, sub, key, level + 1, other);
        StepLookup(tree, path[0], other, level);
        ReplacedTokens(tree, path[0], changed);
        StepLookup(WithChild(tree, path[0], changed), path[0], other, level);
      } else {
        LookupElsewhere(tree, path[0], changed, other, level);
      }
    }
  }

  /** A changed child only matters to keys with its token. */
  lemma LookupElsewhere(tree: Tree, i: nat, sub: Tree, other: Key, level: nat)
    requires tree.Node? && i < |tree.children| && level < |other|
    requires other[level] != tree.children[i].token
    ensures Lookup(WithChild(tree, i, sub), other, level) == Lookup(tree, other, level)
  {
    ReplacedTokens(tree, i, sub);
  }

  // ---- A replaced node keeps the tree sound ----

  lemma {:induction false} ReachedIds(tree: Tree, path: Path, sub: Tree)
    requires Reaches(tree, path, sub)
    ensures Ids(sub) <= Ids(tree)
    decreases |path|
  {
    if path != [] {
      ChildIds(tree, path[0]);
      ReachedIds(tree.children[path[0]].tree, path[1..], sub);
    }
  }

  lemma WithChildIds(tree: Tree, i: nat, sub: Tree, added: set<nat>)
    requires tree.Node? && i < |tree.children| && Ids(sub) <= Ids(tree.children[i].tree) + added
    ensures Ids(WithChild(tree, i, sub)) <= Ids(tree) + added
  {
    var changed := WithChild(tree, i, sub);
    forall x | x in Ids(changed)
      ensures x in Ids(tree) + added
    {
      if x != tree.id {
        var j := ChildWith(changed, x);
        ChildIds(tree, j);
      }
    }
  }

  lemma WithChildBytes(tree: Tree, i: nat, sub: Tree, shape: Shape)
    requires tree.Node? && i < |tree.children| && sub.id == tree.children[i].tree.id
    ensures NodeBytes(WithChild(tree, i, sub), shape) == NodeBytes(tree, shape)
  {
    var changed := WithChild(tree, i, sub);
    assert ChildEntries(tree.id, tree.width, changed.children, shape.tokenSize)
      == ChildEntries(tree.id, tree.width, tree.children, shape.tokenSize);
  }

  lemma WithChildWellFormed(tree: Tree, i: nat, sub: Tree, level: nat, added: set<nat>, shape: Shape)
    requires WellFormed(tree, level, shape) && tree.Node? && i < |tree.children| && sub.id == tree.children[i].tree.id
    requires WellFormed(sub, level + 1, shape) && Ids(sub) <= Ids(tree.children[i].tree) + added && added !! Ids(tree)
    ensures WellFormed(WithChild(tree, i, sub), level, shape)
  {
    var changed := WithChild(tree, i, sub);
    ReplacedTokens(tree, i, sub);
    forall j | 0 <= j < |tree.children|
      ensures Ids(tree.children[j].tree) <= Ids(tree)
    {
      ChildIds(tree, j);
    }
    forall j, k | 0 <= j < k < |changed.children|
      ensures NothingShared(changed.children[j].tree, changed.children[k].tree)
    {
      assert NothingShared(tree.children[j].tree, tree.children[k].tree);
    }
  }

  /** The other children are where they were. */
  lemma WithChildRepresented(contents: seq<seq<Byte>>, contents': seq<seq<Byte>>, tree: Tree, i: nat, sub: Tree,
                             level: nat, touched: set<nat>, shape: Shape)
    requires WellFormed(tree, level, shape) && Represents(contents, tree, shape)
    requires tree.Node? && i < |tree.children| && sub.id == tree.children[i].tree.id
      && Represents(contents', sub, shape)
    requires touched <= Ids(tree.children[i].tree) && Untouched(contents, contents', Ids(tree), touched)
    ensures Represents(contents', WithChild(tree, i, sub), shape)
  {
    WithChildBytes(tree, i, sub, shape);
    var changed := WithChild(tree, i, sub);
    assert tree.id !in touched && tree.id in Ids(tree);
    forall j | 0 <= j < |changed.children|
      ensures Represents(contents', changed.children[j].tree, shape)
    {
      if j != i {
        ChildIds(tree, j);
        assert NothingShared(tree.children[if i < j then i else j].tree, tree.children[if i < j then j else i].tree);
        UntouchedRepresents(contents, contents', tree.children[j].tree, Ids(tree), touched, shape);
      }
    }
  }

  /** The vectors of these nodes are as before, except for the touched ones. */
  ghost predicate Untouched(contents: seq<seq<Byte>>, contents': seq<seq<Byte>>, ids: set<nat>, touched: set<nat>) {
    forall x :: x in ids && x !in touched ==> x < |contents| && x < |contents'| && contents'[x] == contents[x]
  }

  lemma UntouchedRepresents(contents: seq<seq<Byte>>, contents': seq<seq<Byte>>, tree: Tree, ids: set<nat>,
                            touched: set<nat>, shape: Shape)
    requires Represents(contents, tree, shape) && Ids(tree) <= ids && Ids(tree) !! touched
    requires Untouched(contents, contents', ids, touched)
    ensures Represents(contents', tree, shape)
  {
    forall x | x in Ids(tree)
      ensures x < |contents| && x < |contents'| && contents'[x] == contents[x]
    {
      assert x in ids && x !in touched;
    }
    RepresentsElsewhere(contents, contents', tree, shape);
  }

  lemma Narrower(contents: seq<seq<Byte>>, contents': seq<seq<Byte>>, ids: set<nat>, fewer: set<nat>, touched: set<nat>)
    requires fewer <= ids && Untouched(contents, contents', ids, touched)
    ensures Untouched(contents, contents', fewer, touched)
  {
  }

  /** The same, one level up. */
  lemma ReplacedStep(tree: Tree, i: nat, changed: Tree, level: nat, added: set<nat>, shape: Shape)
    requires WellFormed(tree, level, shape) && tree.Node? && i < |tree.children| && added !! Ids(tree)
    requires Replaces(tree.children[i].tree, changed, level + 1, added, shape)
    ensures Replaces(tree, WithChild(tree, i, changed), level, added, shape)
  {
    WithChildIds(tree, i, changed, added);
    WithChildWellFormed(tree, i, changed, level, added, shape);
  }

  /** A well-formed tree that may stand where another one has been. */
  ghost predicate Replaces(tree: Tree, changed: Tree, level: nat, added: set<nat>, shape: Shape) {
    changed.id == tree.id && WellFormed(changed, level, shape) && Ids(changed) <= Ids(tree) + added
  }

  lemma ChildReplaced(tree: Tree, i: nat, level: nat, added: set<nat>, shape: Shape)
    requires WellFormed(tree, level, shape) && tree.Node? && i < |tree.children| && added !! Ids(tree)
    ensures WellFormed(tree.children[i].tree, level + 1, shape) && added !! Ids(tree.children[i].tree)
  {
    ChildIds(tree, i);
  }

  /** Putting a well-formed node in place of another one gives a well-formed tree. */
  lemma {:induction false} ReplacedWellFormed(tree: Tree, path: Path, level: nat, from: Tree, sub: Tree, depth: nat,
                                              added: set<nat>, shape: Shape)
    requires Reaches(tree, path, from) && depth == level + |path| && WellFormed(tree, level, shape)
    requires Replaces(from, sub, depth, added, shape) && added !! Ids(tree)
    ensures Replaces(tree, ReplaceAt(tree, path, from, sub), level, added, shape)
    decreases |path|
  {
    if path != [] {
      var child := tree.children[path[0]].tree;
      ChildReplaced(tree, path[0], level, added, shape);
      ReplacedWellFormed(child, path[1..], level + 1, from, sub, depth, added, shape);
      ReplacedStep(tree, path[0], ReplaceAt(child, path[1..], from, sub), level, added, shape);
    }
  }

  /** Putting a stored node in place of another one gives a stored tree. */
  lemma {:induction false} ReplacedRepresented(contents: seq<seq<Byte>>, contents': seq<seq<Byte>>, tree: Tree,
                                               path: Path, level: nat,
                                               from: Tree, sub: Tree, shape: Shape)
    requires Reaches(tree, path, from) && WellFormed(tree, level, shape) && Represents(contents, tree, shape)
    requires sub.id == from.id && Represents(contents', sub, shape)
      && Untouched(contents, contents', Ids(tree), Ids(from))
    ensures var changed := ReplaceAt(tree, path, from, sub); changed.id == tree.id && Represents(contents', changed, shape)
    decreases |path|
  {
    if path != [] {
      var child := tree.children[path[0]].tree;
      ChildIsSound(contents, tree, path[0], level, shape);
      ReachedIds(child, path[1..], from);
      Narrower(contents, contents', Ids(tree), Ids(child), Ids(from));
      ReplacedRepresented(contents, contents', child, path[1..], level + 1, from, sub, shape);
      WithChildRepresented(contents, contents', tree, path[0], ReplaceAt(child, path[1..], from, sub), level,
                           Ids(from), shape);
    }
  }
}
