/** The radix tree between two calls: what a call must leave sound, and what it must leave alone. */
module RadixStates {
  import opened Endian
  import opened RadixNodes
  import opened RadixTrees
  import opened RadixInsert
  import opened RadixBytes
  import opened RadixMap
  import opened RadixAdding
  import opened RadixSearching
  import opened VectorStorage

  /** All vectors and the numbers in use, and one tree among them with the map it stands for. */
  datatype State = State(vectors: seq<seq<Byte>>, live: set<nat>, tree: Tree, contents: Map, size: nat)

  ghost predicate Sound(s: State, shape: Shape) {
    && Stored(s.vectors, s.tree, s.contents, shape) && Ids(s.tree) <= s.live && s.size == |s.contents|
    && forall x :: x in s.live ==> x < |s.vectors|
  }

  /** A new tree stands for the empty map. */
  lemma EmptyIsSound(vectors: seq<seq<Byte>>, live: set<nat>, id: nat, shape: Shape) returns (tree: Tree)
    requires Sane(shape) && id < |vectors| && vectors[id] == [] && id in live && forall x :: x in live ==> x < |vectors|
    ensures tree.id == id && Ids(tree) == {id} && Sound(State(vectors, live, tree, map[], 0), shape)
  {
    tree := EmptyIsStored(vectors, id, shape);
  }

  /** Vectors of others are as before, and new nodes have new numbers. */
  ghost predicate ElsewhereSame(s: State, t: State) {
    && |s.vectors| <= |t.vectors| && s.live <= t.live && Ids(t.tree) <= Ids(s.tree) + (t.live - s.live)
    && (forall x :: x in t.live && x !in s.live ==> |s.vectors| <= x)
    && forall i :: 0 <= i < |s.vectors| && i !in Ids(s.tree) ==> t.vectors[i] == s.vectors[i]
  }

  /** A call on one tree leaves every other tree in the same storage alone. */
  lemma OtherTreeIsKept(s: State, t: State, tree: Tree, contents: Map, shape: Shape)
    requires ElsewhereSame(s, t) && Stored(s.vectors, tree, contents, shape) && Ids(tree) <= s.live
      && Ids(tree) !! Ids(s.tree)
    ensures Stored(t.vectors, tree, contents, shape) && Ids(tree) <= t.live && Ids(tree) !! Ids(t.tree)
  {
    AllIdsStored(s.vectors, tree, shape);
    RepresentsElsewhere(s.vectors, t.vectors, tree, shape);
  }

  /** A search for the key has come to the node `sub`. */
  ghost predicate Comes(s: State, path: Path, sub: Tree, key: Key, level: nat, cur: nat, shape: Shape) {
    At(s.vectors, s.tree, path, sub, key, shape) && |path| == level && sub.id == cur
  }

  lemma ComesFurther(s: State, path: Path, sub: Tree, key: Key, level: nat, cur: nat, next: nat, shape: Shape)
    returns (path': Path, sub': Tree)
    requires Comes(s, path, sub, key, level, cur, shape) && sub.Node? && Present(Tokens(sub), key[level])
    requires next == sub.children[Place(Tokens(sub), key[level])].tree.id
    ensures Comes(s, path', sub', key, level + 1, next, shape)
  {
    AtChild(s.vectors, s.tree, path, sub, key, shape);
    path', sub' := path + [Place(Tokens(sub), key[level])], sub.children[Place(Tokens(sub), key[level])].tree;
  }

  /** The search for a new key has ended at `sub`. */
  ghost predicate CanAdd(s: State, path: Path, sub: Tree, key: Key, level: nat, data: seq<Byte>, shape: Shape) {
    && Sound(s, shape) && At(s.vectors, s.tree, path, sub, key, shape) && level == |path| && !Present(Tokens(sub), key[level])
    && |data| == shape.payloadSize && |s.vectors| + shape.realSize <= ID_LIMIT
  }

  /** A key has been added or its payload changed; all else is as before. */
  ghost predicate Puts(s: State, t: State, key: Key, data: seq<Byte>, shape: Shape) {
    && Sound(t, shape) && t.contents == s.contents[key := data] && t.tree.id == s.tree.id && ElsewhereSame(s, t)
  }

  /** The key is missing, and has been added if that was wanted. */
  ghost predicate Missed(s: State, t: State, addp: bool, key: Key, data: seq<Byte>, shape: Shape) {
    key !in s.contents && if addp then Puts(s, t, key, data, shape) else t == s
  }

  /** What a search has done, which may have added a missing key or overwritten the payload of a present one. */
  ghost predicate Outcome(s: State, t: State, found: bool, addp: bool, update: bool, key: Key, data: seq<Byte>,
                          shape: Shape)
  {
    if (if found then update else addp) then Puts(s, t, key, data, shape) else t == s
  }

  /** The tree's nodes have been freed and a new root has been created; all other vectors are as before. */
  ghost predicate Cleared(s: State, t: State, root: nat) {
    && t.live == s.live - Ids(s.tree) + {root} && root !in s.live - Ids(s.tree) && root < |t.vectors|
    && forall i :: i in s.live && i !in Ids(s.tree) ==> i < |s.vectors| && i < |t.vectors| && t.vectors[i] == s.vectors[i]
  }

  lemma RootIsWhole(s: State, shape: Shape)
    requires Sound(s, shape)
    ensures Whole(s.vectors, s.tree, 0, s.tree.id, s.live, shape)
  {
  }

  lemma StateAfterClearing(s: State, left: seq<seq<Byte>>, root: nat, shape: Shape) returns (t: State)
    requires Sound(s, shape) && Sane(shape) && root == |left|
    requires left == if s.live - Ids(s.tree) == {} then [] else s.vectors
    ensures t.vectors == left + [[]] && t.live == s.live - Ids(s.tree) + {root} && t.contents == map[] && t.size == 0
    ensures t.tree.id == root && Ids(t.tree) == {root} && Sound(t, shape) && Cleared(s, t, root)
  {
    var vectors', live' := left + [[]], s.live - Ids(s.tree) + {root};
    var tree := EmptyIsSound(vectors', live', root, shape);
    t := State(vectors', live', tree, map[], 0);
  }

  /** Clearing a tree leaves every other tree in the same storage alone. */
  lemma OtherTreeSurvives(s: State, t: State, root: nat, tree: Tree, contents: Map, shape: Shape)
    requires Cleared(s, t, root) && Stored(s.vectors, tree, contents, shape) && Ids(tree) <= s.live
      && Ids(tree) !! Ids(s.tree)
    ensures Stored(t.vectors, tree, contents, shape) && Ids(tree) <= t.live && root !in Ids(tree)
  {
    RepresentsElsewhere(s.vectors, t.vectors, tree, shape);
  }

  /** What adding a key has made of the state. */
  lemma StateAfterAdding(s: State, vectors': seq<seq<Byte>>, live': set<nat>, path: Path, sub: Tree, key: Key,
                         level: nat,
                         data: seq<Byte>, shape: Shape) returns (t: State)
    requires CanAdd(s, path, sub, key, level, data, shape)
    requires KeyBack(s.vectors, vectors', s.live, live', sub, key, level, data, shape)
    ensures t.vectors == vectors' && t.live == live' && t.size == s.size + 1 && Puts(s, t, key, data, shape)
  {
    MissingKey(s.tree, path, sub, key, s.contents, shape);
    var changed := KeyAdded(s.vectors, vectors', s.tree, path, sub, key, data, s.contents, shape);
    t := WithKey(s, vectors', live', changed, sub, key, level, data, shape);
  }

  lemma WithKey(s: State, vectors': seq<seq<Byte>>, live': set<nat>, changed: Tree, sub: Tree, key: Key, level: nat,
                data: seq<Byte>, shape: Shape)
    returns (t: State)
    requires KeyBack(s.vectors, vectors', s.live, live', sub, key, level, data, shape) && Ids(sub) <= Ids(s.tree)
    requires Ids(s.tree) <= s.live && (forall x :: x in s.live ==> x < |s.vectors|)
    requires Ids(changed) <= Ids(s.tree) + Range(|s.vectors|, |key| - level - 1) && key !in s.contents
      && s.size == |s.contents|
    requires Stored(vectors', changed, s.contents[key := data], shape)
    requires changed.id == s.tree.id
    ensures t.vectors == vectors' && t.live == live' && t.size == s.size + 1 && Puts(s, t, key, data, shape)
  {
    t := State(vectors', live', changed, s.contents[key := data], s.size + 1);
    AddedElsewhere(s, t, sub, key, level, data, shape);
  }

  lemma AddedElsewhere(s: State, t: State, sub: Tree, key: Key, level: nat, data: seq<Byte>, shape: Shape)
    requires KeyBack(s.vectors, t.vectors, s.live, t.live, sub, key, level, data, shape) && Ids(sub) <= Ids(s.tree)
    requires Ids(s.tree) <= s.live && (forall x :: x in s.live ==> x < |s.vectors|)
    requires Ids(t.tree) <= Ids(s.tree) + Range(|s.vectors|, |key| - level - 1)
    ensures ElsewhereSame(s, t) && Ids(t.tree) <= t.live && (forall x :: x in t.live ==> x < |t.vectors|)
  {
    assert sub.id in Ids(sub);
  }

  /** The bytes of a leaf after a payload has been overwritten in place. */
  lemma PayloadSpliced(leaf: Tree, i: nat, data: seq<Byte>, at: nat, shape: Shape)
    requires leaf.Leaf? && i < |leaf.items| && |data| == shape.payloadSize
    requires forall k :: 0 <= k < |leaf.items| ==> |leaf.items[k].payload| == shape.payloadSize
    requires at == Offset(i, shape.tokenSize + shape.payloadSize) + shape.tokenSize
    ensures at + |data| <= |NodeBytes(leaf, shape)|
    ensures NodeBytes(WithPayload(leaf, i, data), shape) == Spliced(NodeBytes(leaf, shape), at, |data|, data)
  {
    var entries := LeafEntries(leaf.items, shape.tokenSize);
    EntryOverwritten(leaf.items, i, data, shape.tokenSize);
    EvenItems(leaf.items, shape);
    EntrySpliced(entries, shape.tokenSize + shape.payloadSize, i, Bytes(leaf.items[i].token, shape.tokenSize),
                 leaf.items[i].payload, data);
  }

  lemma EntrySpliced(entries: seq<seq<Byte>>, size: nat, i: nat, token: seq<Byte>, before: seq<Byte>, after: seq<Byte>)
    requires Even(entries, size) && i < |entries| && entries[i] == token + before && |before| == |after|
    ensures Offset(i, size) + |token| + |after| <= |Flat(entries)|
    ensures Flat(entries[i := token + after]) == Spliced(Flat(entries), Offset(i, size) + |token|, |after|, after)
  {
    Surrounded(entries, i, token + before);
    Surrounded(entries[i := token + after], i, token + after);
    SameAround(entries, i, token + after);
    FlatOverwritten(entries, entries[i := token + after], entries[..i], i, token, before, after, entries[i + 1..],
                    size);
  }

  lemma SameAround(entries: seq<seq<Byte>>, i: nat, entry: seq<Byte>)
    requires i < |entries|
    ensures entries[i := entry][..i] == entries[..i] && entries[i := entry][i + 1..] == entries[i + 1..]
  {
  }

  lemma EntryOverwritten(items: seq<Item>, i: nat, data: seq<Byte>, tokenSize: nat)
    requires i < |items|
    ensures LeafEntries(items[i := Item(items[i].token, data)], tokenSize)
      == LeafEntries(items, tokenSize)[i := Bytes(items[i].token, tokenSize) + data]
  {
  }

  lemma Surrounded(entries: seq<seq<Byte>>, i: nat, entry: seq<Byte>)
    requires i < |entries| && entries[i] == entry
    ensures entries == entries[..i] + [entry] + entries[i + 1..]
  {
  }

  lemma FlatOverwritten(entries: seq<seq<Byte>>, entries': seq<seq<Byte>>, front: seq<seq<Byte>>, i: nat,
                        token: seq<Byte>, before: seq<Byte>, after: seq<Byte>, back: seq<seq<Byte>>, size: nat)
    requires Even(front, size) && |before| == |after| && i == |front|
    requires entries == front + [token + before] + back && entries' == front + [token + after] + back
    ensures Offset(i, size) + |token| + |after| <= |Flat(entries)|
    ensures Flat(entries') == Spliced(Flat(entries), Offset(i, size) + |token|, |after|, after)
  {
    FlatSize(front, size);
    FlatAround(front, token + before, back);
    FlatAround(front, token + after, back);
    SplicedInside(Flat(front), token, before, after, Flat(back));
  }

  lemma FlatAround(front: seq<seq<Byte>>, entry: seq<Byte>, back: seq<seq<Byte>>)
    ensures Flat(front + [entry] + back) == Flat(front) + entry + Flat(back)
  {
    FlatAppend(front + [entry], back);
    FlatAppend(front, [entry]);
    FlatOne(entry);
  }

  lemma SplicedInside(front: seq<Byte>, token: seq<Byte>, before: seq<Byte>, after: seq<Byte>, back: seq<Byte>)
    requires |before| == |after|
    ensures front + (token + after) + back
      == Spliced(front + (token + before) + back, |front| + |token|, |after|, after)
  {
  }

  /** What overwriting a payload has made of the state. */
  lemma StateAfterUpdate(s: State, vectors': seq<seq<Byte>>, path: Path, leaf: Tree, at: nat, key: Key,
                         data: seq<Byte>, shape: Shape)
    returns (t: State)
    requires Sound(s, shape) && OnLeaf(s, path, leaf, at, key, shape) && |data| == shape.payloadSize
    requires at + |data| <= |NodeBytes(leaf, shape)| && leaf.id < |s.vectors|
    requires vectors' == s.vectors[leaf.id := Spliced(NodeBytes(leaf, shape), at, |data|, data)]
    ensures t.vectors == vectors' && t.live == s.live && t.size == s.size && Puts(s, t, key, data, shape)
  {
    var i := Place(Tokens(leaf), key[|path|]);
    FoundKey(s.tree, path, leaf, key, s.contents, shape);
    PayloadSpliced(leaf, i, data, at, shape);
    var changed := PayloadChanged(s.vectors, vectors', s.tree, path, leaf, key, data, s.contents, shape);
    t := WithData(s, vectors', changed, leaf, key, data, shape);
  }

  lemma WithData(s: State, vectors': seq<seq<Byte>>, changed: Tree, leaf: Tree, key: Key, data: seq<Byte>, shape: Shape)
    returns (t: State)
    requires Ids(leaf) <= Ids(s.tree) && Ids(s.tree) <= s.live && (forall x :: x in s.live ==> x < |s.vectors|)
    requires key in s.contents && s.size == |s.contents| && Ids(changed) <= Ids(s.tree)
    requires |vectors'| == |s.vectors|
      && (forall i :: 0 <= i < |s.vectors| && i != leaf.id ==> vectors'[i] == s.vectors[i])
    requires Stored(vectors', changed, s.contents[key := data], shape)
    requires changed.id == s.tree.id
    ensures t.vectors == vectors' && t.live == s.live && t.size == s.size && Puts(s, t, key, data, shape)
  {
    t := State(vectors', s.live, changed, s.contents[key := data], s.size);
    assert leaf.id in Ids(leaf);
    assert t.contents.Keys == s.contents.Keys;
  }

  /** The search has ended at a leaf that holds the key's payload at `at`. */
  ghost predicate OnLeaf(s: State, path: Path, leaf: Tree, at: nat, key: Key, shape: Shape) {
    && At(s.vectors, s.tree, path, leaf, key, shape) && leaf.Leaf? && Present(Tokens(leaf), key[|path|])
    && at == Offset(Place(Tokens(leaf), key[|path|]), shape.tokenSize + shape.payloadSize) + shape.tokenSize
  }

  /** The payload there is what the map says. */
  lemma LeafHoldsPayload(s: State, path: Path, leaf: Tree, at: nat, key: Key, shape: Shape)
    requires Sound(s, shape) && OnLeaf(s, path, leaf, at, key, shape)
    ensures key in s.contents && PayloadAt(NodeBytes(leaf, shape), at, s.contents[key])
      && |s.contents[key]| == shape.payloadSize
  {
    FoundKey(s.tree, path, leaf, key, s.contents, shape);
    PayloadIsAt(leaf, Place(Tokens(leaf), key[|path|]), at, shape);
  }

  lemma PayloadIsAt(leaf: Tree, i: nat, at: nat, shape: Shape)
    requires leaf.Leaf? && i < |leaf.items| && at == Offset(i, shape.tokenSize + shape.payloadSize) + shape.tokenSize
    requires forall k :: 0 <= k < |leaf.items| ==> |leaf.items[k].payload| == shape.payloadSize
    ensures PayloadAt(NodeBytes(leaf, shape), at, leaf.items[i].payload)
  {
    LeafPayload(leaf, shape, i);
  }

  // ---- One level of a search ----

  /** Looks for the next node in the node's bytes. */
  method NextNode(bytecode: seq<Byte>, key: Key, cur: nat, level: nat, shape: Shape, ghost s: State, ghost path: Path,
                  ghost sub: Tree)
    returns (found: bool, bytePos: nat, next: nat, ghost path': Path, ghost sub': Tree)
    requires Sane(shape) && Comes(s, path, sub, key, level, cur, shape) && bytecode == NodeBytes(sub, shape)
      && level + 1 < shape.realSize
    ensures found ==> Comes(s, path', sub', key, level + 1, next, shape)
    ensures !found ==> !Present(Tokens(sub), key[level]) && bytePos == EntryOffset(sub, key[level], shape)
  {
    var step;
    found, bytePos, step := FindLink(bytecode, key[level], sub, level, shape);
    next, path', sub' := cur + step, path, sub;
    if found {
      path', sub' := ComesFurther(s, path, sub, key, level, cur, next, shape);
    }
  }

  /** Looks for the payload in the leaf's bytes. */
  method FindInLeaf(bytecode: seq<Byte>, key: Key, cur: nat, level: nat, shape: Shape, ghost s: State,
                    ghost path: Path, ghost sub: Tree)
    returns (found: bool, bytePos: nat, p: nat)
    requires Sane(shape) && Comes(s, path, sub, key, level, cur, shape) && bytecode == NodeBytes(sub, shape)
      && level + 1 == shape.realSize
    ensures found ==> OnLeaf(s, path, sub, p, key, shape)
    ensures !found ==> !Present(Tokens(sub), key[level]) && bytePos == EntryOffset(sub, key[level], shape)
  {
    found, bytePos := FindPayload(bytecode, key[level], sub, level, shape);
    p := bytePos + shape.tokenSize;
  }
}
