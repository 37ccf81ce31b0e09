/** radixtree/RadixTree-Vector.hh: the tree over the shared vectors, which stands for a map from
    keys to payloads. */
module RadixTree {
  import opened Endian
  import opened RadixTrees
  import opened RadixInsert
  import opened RadixBytes
  import opened RadixMap
  import opened RadixAdding
  import opened RadixSearching
  import opened RadixStates
  import opened VectorLayout
  import opened VectorStorage

  class RadixTree {
    const shape: Shape
    const storage: VectorStorage
    var size: nat
    var rootId: nat
    /** The nodes in the storage, and the map that they stand for. */
    ghost var tree: Tree
    ghost var contents: Map

    ghost function Now(): State
      reads this, storage
    {
      State(storage.Contents(), storage.live, tree, contents, size)
    }

    ghost predicate Is(s: State)
      reads this, storage
    {
      && storage.Valid() && tree.id == rootId && storage.Contents() == s.vectors && storage.live == s.live
      && tree == s.tree && contents == s.contents && size == s.size
    }

    ghost predicate Valid()
      reads this, storage
    {
      storage.Valid() && tree.id == rootId && Sound(Now(), shape)
    }

    constructor (shape: Shape, storage: VectorStorage)
      requires Sane(shape) && storage.Valid()
      modifies storage
      ensures Valid() && contents == map[] && this.shape == shape && this.storage == storage && Ids(tree) == {rootId}
      ensures storage.Contents() == old(storage.Contents()) + [[]] && storage.live == old(storage.live) + {rootId}
    {
      var id := storage.Create();
      this.shape, this.storage, size, rootId := shape, storage, 0, id;
      new;
      ghost var empty := EmptyIsSound(storage.Contents(), storage.live, id, shape);
      Become(State(storage.Contents(), storage.live, empty, map[], 0));
    }

    /** The storage and the size are as in this state; so are now the tree and the map. */
    ghost method Become(t: State)
      requires storage.Valid() && t.vectors == storage.Contents() && t.live == storage.live && t.size == size
        && t.tree.id == rootId
      modifies this`tree, this`contents
      ensures Is(t)
    {
      tree, contents := t.tree, t.contents;
      assert storage.Contents() == t.vectors;
    }

    /** The node that the relay buffer shows. */
    ghost predicate Shows(node: Tree)
      reads storage
    {
      && storage.Valid() && node.id == storage.bufOwner < |storage.ptrs|
      && storage.Relay() == NodeBytes(node, shape)
    }

    // ---- AddBack ----

    /** Inserts bytes into the node in the relay buffer, which then holds `result`. */
    method InsertBytes(pos: nat, entry: seq<Byte>, ghost result: seq<Byte>)
      requires storage.Valid() && storage.bufOwner < |storage.ptrs|
      requires SplicedTo(storage.Relay(), pos, entry, result) && |result| <= MAX_LENGTH
      modifies storage
      ensures storage.Valid() && storage.live == old(storage.live)
      ensures storage.Contents() == old(storage.Contents())[old(storage.bufOwner) := result]
    {
      storage.Replace(pos, 0, entry);
    }

    /** Replaces the whole node in the relay buffer. */
    method ReplaceBytes(bytes: seq<Byte>)
      requires storage.Valid() && storage.bufOwner < |storage.ptrs| && |bytes| <= MAX_LENGTH
      modifies storage
      ensures storage.Valid() && storage.live == old(storage.live)
      ensures storage.Contents() == old(storage.Contents())[old(storage.bufOwner) := bytes]
    {
      ghost var relay := storage.Relay();
      assert Spliced(relay, 0, |relay|, bytes) == bytes;
      storage.Replace(0, storage.length, bytes);
    }

    /** Inserts the entry of a key's last byte. */
    method AddToLeaf(key: Key, bytePos: nat, level: nat, data: seq<Byte>, ghost node: Tree)
      requires Sane(shape) && Shows(node) && WellFormed(node, level, shape) && node.Leaf?
      requires level < |key| && |data| == shape.payloadSize && !Present(Tokens(node), key[level])
      requires bytePos == EntryOffset(node, key[level], shape)
      modifies this`size, storage
      ensures storage.Valid() && storage.live == old(storage.live) && size == old(size) + 1
      ensures storage.Contents() == old(storage.Contents())[node.id := NodeBytes(Added(node, key, level, data, 0), shape)]
    {
      hide Added;
      var entry := PayloadBytes(key[level], data, shape.tokenSize);
      LeafAdded(node, key, level, data, shape);
      InsertBytes(bytePos, entry, NodeBytes(Added(node, key, level, data, 0), shape));
      size := size + 1;
    }

    /** Inserts the entry of a new child, in a width that holds its link. */
    method AddLink(token: Byte, bytePos: nat, delta: nat, ghost node: Tree, ghost level: nat, ghost child: Child)
      requires Sane(shape) && Shows(node) && WellFormed(node, level, shape) && node.Node? && child.token == token
      requires !Present(Tokens(node), token) && bytePos == EntryOffset(node, token, shape)
      requires delta == Delta(node.id, child.tree.id) && delta < ID_LIMIT
      modifies storage
      ensures storage.Valid() && storage.live == old(storage.live)
      ensures storage.Contents() == old(storage.Contents())[node.id := NodeBytes(WithLink(node, child), shape)]
    {
      WithLinkFits(node, child, level, shape);
      var insert, pos, bytes := LinkedBytes(storage.Relay(), bytePos, token, delta, node, level, child, shape);
      if insert {
        InsertBytes(pos, bytes, NodeBytes(WithLink(node, child), shape));
      } else {
        ReplaceBytes(bytes);
      }
    }

    /** Creates a child for the next byte of the key, links it, and shows it. */
    method NewChild(token: Byte, id: nat, bytePos: nat, ghost level: nat, ghost node: Tree, ghost child: Child)
      returns (newId: nat)
      requires Sane(shape) && Shows(node) && WellFormed(node, level, shape) && node.Node?
      requires node.id == id && child.token == token && child.tree.id == |storage.ptrs| <= ID_LIMIT
      requires !Present(Tokens(node), token) && bytePos == EntryOffset(node, token, shape)
      modifies storage
      ensures newId == child.tree.id < |storage.ptrs| && storage.Valid() && storage.bufOwner == newId
        && storage.Relay() == []
      ensures storage.live == old(storage.live) + {newId}
      ensures storage.Contents() == (old(storage.Contents()) + [[]])[node.id := NodeBytes(WithLink(node, child), shape)]
    {
      ghost var vectors := storage.Contents();
      newId := storage.Create();
      AddLink(token, bytePos, newId - id - 1, node, level, child);
      ghost var linked := storage.Contents();
      storage.Read(newId);
      assert storage.Contents()[newId] == linked[newId];
    }

    /** Adds the rest of a key to the node in the relay buffer. */
    method AddBack(key: Key, id: nat, bytePos: nat, level: nat, data: seq<Byte>, ghost node: Tree,
                   ghost vectors: seq<seq<Byte>>, ghost live: set<nat>)
      requires vectors == storage.Contents() && live == storage.live && AddsTo(node, key, id, bytePos, level, data)
      modifies this`size, storage
      ensures storage.Valid() && size == old(size) + 1
      ensures KeyBack(vectors, storage.Contents(), live, storage.live, node, key, level, data, shape)
      decreases |key| - level, 1
    {
      if level + 1 >= shape.realSize {
        AddToLeaf(key, bytePos, level, data, node);
        LeafBack(vectors, storage.Contents(), live, node, key, level, data, shape);
      } else {
        AddToInner(key, id, bytePos, level, data, node, vectors, live);
      }
    }

    /** The node in the relay buffer lacks the token, which belongs at `bytePos`. */
    ghost predicate AddsTo(node: Tree, key: Key, id: nat, bytePos: nat, level: nat, data: seq<Byte>)
      reads storage
    {
      Shows(node) && node.id == id && Lacks(node, key, bytePos, level, data, shape) && |storage.ptrs| + (|key| - level) <= ID_LIMIT
    }

    /** Inner nodes get a new child, which is then filled in the same way. */
    method AddToInner(key: Key, id: nat, bytePos: nat, level: nat, data: seq<Byte>, ghost node: Tree,
                      ghost vectors: seq<seq<Byte>>, ghost live: set<nat>)
      requires vectors == storage.Contents() && live == storage.live && AddsTo(node, key, id, bytePos, level, data)
      requires level + 1 < shape.realSize
      modifies this`size, storage
      ensures storage.Valid() && size == old(size) + 1
      ensures KeyBack(vectors, storage.Contents(), live, storage.live, node, key, level, data, shape)
      decreases |key| - level, 0
    {
      hide *;
      var newId;
      ghost var empty, linked, live';
      newId, empty, linked, live' := OpenChild(key, id, bytePos, level, data, node, vectors, live);
      AddBack(key, newId, 0, level + 1, data, empty, linked, live');
      ghost var filled, filledLive := storage.Contents(), storage.live;
      InnerBack(vectors, linked, filled, live, live', filledLive, node, empty, key, level, data, newId, shape);
    }

    /** Links a new child and shows it. */
    method OpenChild(key: Key, id: nat, bytePos: nat, level: nat, ghost data: seq<Byte>, ghost node: Tree,
                     ghost vectors: seq<seq<Byte>>, ghost live: set<nat>)
      returns (newId: nat, ghost empty: Tree, ghost linked: seq<seq<Byte>>, ghost live': set<nat>)
      requires vectors == storage.Contents() && live == storage.live && AddsTo(node, key, id, bytePos, level, data)
      requires level + 1 < shape.realSize
      modifies storage
      ensures linked == storage.Contents() && live' == storage.live && AddsTo(empty, key, newId, 0, level + 1, data)
      ensures Linked(vectors, linked, live, live', node, empty, key, level, data, newId, shape)
    {
      ghost var child := NewLink(node, key, level, data, |vectors|);
      newId := NewChild(key[level], id, bytePos, level, node, child);
      linked, live' := storage.Contents(), storage.live;
      empty := EmptyLinked(vectors, linked, live, live', node, child, key, level, data, newId, shape);
    }

    // ---- Searching ----

    /** The node is read into the relay buffer. */
    method ReadNode(cur: nat, ghost sub: Tree, ghost s: State)
      requires Is(s) && sub.id == cur < |s.vectors| && s.vectors[cur] == NodeBytes(sub, shape)
      modifies storage
      ensures Is(s) && Shows(sub)
    {
      storage.Read(cur);
      assert storage.Contents()[cur] == storage.Relay();
    }

    /** The search ends here without the key, which is added if that is wanted. */
    method Missing(addp: bool, key: Key, id: nat, bytePos: nat, level: nat, data: seq<Byte>, ghost path: Path,
                   ghost sub: Tree, ghost s: State)
      returns (ghost t: State)
      requires Is(s) && Sound(s, shape) && Comes(s, path, sub, key, level, id, shape) && Shows(sub)
      requires !Present(Tokens(sub), key[level]) && bytePos == EntryOffset(sub, key[level], shape)
      requires addp ==> |data| == shape.payloadSize && |s.vectors| + shape.realSize <= ID_LIMIT
      modifies this, storage
      ensures Is(t) && Missed(s, t, addp, key, data, shape)
    {
      MissingKey(s.tree, path, sub, key, s.contents, shape);
      t := s;
      if addp {
        t := Insert(key, id, bytePos, level, data, path, sub, s);
      }
    }

    method Insert(key: Key, id: nat, bytePos: nat, level: nat, data: seq<Byte>, ghost path: Path, ghost sub: Tree,
                  ghost s: State)
      returns (ghost t: State)
      requires CanAdd(s, path, sub, key, level, data, shape) && AddsTo(sub, key, id, bytePos, level, data)
      requires s.vectors == storage.Contents() && s.live == storage.live && s.size == size && s.tree.id == rootId
      modifies this, storage
      ensures Is(t) && Puts(s, t, key, data, shape)
    {
      hide *;
      AddBack(key, id, bytePos, level, data, sub, s.vectors, s.live);
      t := BecomeAdded(s, path, sub, key, level, data);
    }

    /** The key has been added to the storage; so it is now to the tree and the map. */
    ghost method BecomeAdded(s: State, path: Path, sub: Tree, key: Key, level: nat, data: seq<Byte>) returns (t: State)
      requires CanAdd(s, path, sub, key, level, data, shape) && size == s.size + 1 && s.tree.id == rootId
      requires storage.Valid() && KeyBack(s.vectors, storage.Contents(), s.live, storage.live, sub, key, level, data, shape)
      modifies this`tree, this`contents
      ensures Is(t) && Puts(s, t, key, data, shape)
    {
      t := StateAfterAdding(s, storage.Contents(), storage.live, path, sub, key, level, data, shape);
      Become(t);
    }

    /** One level of the search; a missing key is added if that is wanted. */
    method Descend(addp: bool, key: Key, cur: nat, level: nat, data: seq<Byte>, ghost path: Path, ghost sub: Tree,
                   ghost s: State)
      returns (found: bool, next: nat, ghost path': Path, ghost sub': Tree, ghost t: State)
      requires Is(s) && Sound(s, shape) && Comes(s, path, sub, key, level, cur, shape) && level + 1 < shape.realSize
      requires addp ==> |data| == shape.payloadSize && |s.vectors| + shape.realSize <= ID_LIMIT
      modifies this, storage
      ensures Is(t) && if found then t == s else Missed(s, t, addp, key, data, shape)
      ensures found ==> Comes(s, path', sub', key, level + 1, next, shape)
    {
      ReadNode(cur, sub, s);
      assert storage.Relay() == NodeBytes(sub, shape);
      var bytePos;
      found, bytePos, next, path', sub' := NextNode(storage.Relay(), key, cur, level, shape, s, path, sub);
      t := s;
      if !found {
        t := Missing(addp, key, cur, bytePos, level, data, path, sub, s);
      }
    }

    /** The last level of the search; `p` is where the payload starts in the relay buffer. */
    method ReachLeaf(addp: bool, key: Key, cur: nat, level: nat, data: seq<Byte>, ghost path: Path, ghost sub: Tree,
                     ghost s: State)
      returns (found: bool, p: nat, ghost t: State)
      requires Is(s) && Sound(s, shape) && Comes(s, path, sub, key, level, cur, shape) && level + 1 == shape.realSize
      requires addp ==> |data| == shape.payloadSize && |s.vectors| + shape.realSize <= ID_LIMIT
      modifies this, storage
      ensures Is(t) && if found then t == s else Missed(s, t, addp, key, data, shape)
      ensures found ==> Shows(sub) && OnLeaf(s, path, sub, p, key, shape)
    {
      ReadNode(cur, sub, s);
      var bytePos;
      found, bytePos, p := FindInLeaf(storage.Relay(), key, cur, level, shape, s, path, sub);
      t := s;
      if !found {
        t := Missing(addp, key, cur, bytePos, level, data, path, sub, s);
      }
    }

    /** The search for a key, which is added where it is missing if that is wanted. */
    method Process(addp: bool, key: Key, data: seq<Byte>, ghost s: State)
      returns (found: bool, p: nat, ghost path: Path, ghost leaf: Tree, ghost t: State)
      requires Is(s) && Sound(s, shape) && |key| == shape.realSize
      requires addp ==> |data| == shape.payloadSize && |s.vectors| + shape.realSize <= ID_LIMIT
      modifies this, storage
      ensures Is(t) && if found then t == s else Missed(s, t, addp, key, data, shape)
      ensures found ==> Shows(leaf) && OnLeaf(s, path, leaf, p, key, shape)
    {
      var level, cur := 0, rootId;
      path, leaf := [], tree;
      AtRoot(s.vectors, s.tree, key, s.contents, shape);
      found, p := true, 0;
      while level + 1 < shape.realSize
        invariant level < shape.realSize && Is(s) && Comes(s, path, leaf, key, level, cur, shape)
      {
        found, cur, path, leaf, t := Descend(addp, key, cur, level, data, path, leaf, s);
        if !found {
          return;
        }
        level := level + 1;
      }
      found, p, t := ReachLeaf(addp, key, cur, level, data, path, leaf, s);
    }

    // ---- The map's operations ----

    /** A part of the relay buffer. */
    method CopyOut(p: nat, n: nat) returns (data: seq<Byte>)
      requires storage.Valid() && p + n <= storage.length
      ensures data == storage.Relay()[p..p + n]
    {
      var bytecode := storage.Relay();
      data := bytecode[p..p + n];
    }

    /** The payload of the key that the search has found. */
    method Saved(p: nat, key: Key, ghost path: Path, ghost leaf: Tree, ghost s: State) returns (data: seq<Byte>)
      requires Sound(s, shape) && Shows(leaf) && OnLeaf(s, path, leaf, p, key, shape)
      ensures key in s.contents && data == s.contents[key]
    {
      hide Sound, OnLeaf;
      LeafHoldsPayload(s, path, leaf, p, key, shape);
      data := CopyOut(p, shape.payloadSize);
    }

    /** Writes a payload through the pointer that the search has found. */
    method Overwrite(p: nat, key: Key, data: seq<Byte>, ghost path: Path, ghost leaf: Tree, ghost s: State)
      returns (ghost t: State)
      requires Is(s) && Sound(s, shape) && Shows(leaf) && OnLeaf(s, path, leaf, p, key, shape)
        && |data| == shape.payloadSize
      modifies this, storage
      ensures Is(t) && Puts(s, t, key, data, shape)
    {
      LeafHoldsPayload(s, path, leaf, p, key, shape);
      storage.WriteThrough(p, data);
      t := StateAfterUpdate(s, storage.Contents(), path, leaf, p, key, data, shape);
      Become(t);
    }

    /** The search for a key, which is added if it is missing, or else overwritten or read, as is wanted. */
    method AddOrFindOrUpdate(addp: bool, updateStruct: bool, updateParam: bool, key: Key, data: seq<Byte>,
                             ghost s: State)
      returns (found: bool, param: seq<Byte>, ghost t: State)
      requires Is(s) && Sound(s, shape) && |key| == shape.realSize
      requires addp || updateStruct ==> |data| == shape.payloadSize
      requires addp ==> |s.vectors| + shape.realSize <= ID_LIMIT
      modifies this, storage
      ensures Is(t) && Sound(t, shape) && (found <==> key in s.contents)
      ensures Outcome(s, t, found, addp, updateStruct, key, data, shape)
      ensures param == if found && updateParam && !updateStruct then s.contents[key] else data
    {
      var p;
      ghost var path, leaf;
      found, p, path, leaf, t := Process(addp, key, data, s);
      param := data;
      if found {
        param, t := UseFound(p, updateStruct, updateParam, key, data, path, leaf, s);
      }
    }

    method UseFound(p: nat, updateStruct: bool, updateParam: bool, key: Key, data: seq<Byte>, ghost path: Path,
                    ghost leaf: Tree, ghost s: State)
      returns (param: seq<Byte>, ghost t: State)
      requires Is(s) && Sound(s, shape) && Shows(leaf) && OnLeaf(s, path, leaf, p, key, shape)
      requires updateStruct ==> |data| == shape.payloadSize
      modifies this, storage
      ensures Is(t) && key in s.contents && if updateStruct then Puts(s, t, key, data, shape) else t == s
      ensures param == if updateParam && !updateStruct then s.contents[key] else data
    {
      var saved := Saved(p, key, path, leaf, s);
      // an overwritten payload is the data itself
      param, t := if updateParam && !updateStruct then saved else data, s;
      if updateStruct {
        t := Overwrite(p, key, data, path, leaf, s);
      }
    }

    /** The payload of a key, if there is one. */
    method Find(key: Key, data: seq<Byte>) returns (found: bool, payload: seq<Byte>)
      requires Valid() && |key| == shape.realSize
      modifies this, storage
      ensures Valid() && Now() == old(Now())
      ensures (found <==> key in contents) && payload == if found then contents[key] else data
    {
      ghost var t;
      found, payload, t := AddOrFindOrUpdate(false, false, true, key, data, Now());
    }

    /** Adds a key, or overwrites the payload that is there. */
    method Ensure(key: Key, data: seq<Byte>)
      requires Valid() && |key| == shape.realSize && |data| == shape.payloadSize
        && |storage.ptrs| + shape.realSize <= ID_LIMIT
      modifies this, storage
      ensures Valid() && Puts(old(Now()), Now(), key, data, shape)
    {
      var found, param, t := AddOrFindOrUpdate(true, true, false, key, data, Now());
    }

    /** Adds a key that is missing; the caller's data is left alone. */
    method Add(key: Key, data: seq<Byte>) returns (added: bool, param: seq<Byte>)
      requires Valid() && |key| == shape.realSize && |data| == shape.payloadSize
        && |storage.ptrs| + shape.realSize <= ID_LIMIT
      modifies this, storage
      ensures Valid() && (added <==> key !in old(contents)) && param == data
      ensures if added then Puts(old(Now()), Now(), key, data, shape) else Now() == old(Now())
    {
      var found;
      ghost var t;
      found, param, t := AddOrFindOrUpdate(true, false, false, key, data, Now());
      added := !found;
    }

    /** Adds a key that is missing, or gives the payload that is there. */
    method AddOrFind(key: Key, data: seq<Byte>) returns (added: bool, payload: seq<Byte>)
      requires Valid() && |key| == shape.realSize && |data| == shape.payloadSize
        && |storage.ptrs| + shape.realSize <= ID_LIMIT
      modifies this, storage
      ensures Valid() && (added <==> key !in old(contents)) && payload == if added then data else old(contents)[key]
      ensures if added then Puts(old(Now()), Now(), key, data, shape) else Now() == old(Now())
    {
      var found;
      ghost var t;
      found, payload, t := AddOrFindOrUpdate(true, false, true, key, data, Now());
      added := !found;
    }

    // ---- Deleting ----

    ghost predicate Holds(vectors: seq<seq<Byte>>, live: set<nat>)
      reads storage
    {
      storage.Valid() && storage.Contents() == vectors && storage.live == live
    }

    /** Frees a node and all that is below it. */
    method DeleteArray(id: nat, level: nat, ghost node: Tree, ghost vectors: seq<seq<Byte>>, ghost live: set<nat>)
      requires Holds(vectors, live) && Whole(vectors, node, level, id, live, shape)
      modifies storage
      ensures Holds(if live - Ids(node) == {} then [] else vectors, live - Ids(node))
      decreases shape.realSize - level, 1
    {
      if level + 1 < shape.realSize {
        OwnNumber(node, level, shape);
        DeleteBelow(id, level, node, vectors, live);
      }
      FreeNode(id, vectors, if node.Leaf? then live else FirstDeleted(live, node, |node.children|), live - Ids(node));
    }

    method FreeNode(id: nat, ghost vectors: seq<seq<Byte>>, ghost live: set<nat>, ghost rest: set<nat>)
      requires Holds(vectors, live) && id in live && rest == live - {id}
      modifies storage
      ensures Holds(if rest == {} then [] else vectors, rest)
    {
      storage.Free(id);
    }

    method ReadAgain(id: nat, ghost vectors: seq<seq<Byte>>, ghost live: set<nat>)
      requires Holds(vectors, live) && id < |vectors|
      modifies storage
      ensures Holds(vectors, live) && storage.bufOwner == id && storage.Relay() == vectors[id]
    {
      storage.Read(id);
      assert storage.Contents()[id] == storage.Relay();
    }

    /** Frees all that is below a node. */
    method DeleteBelow(id: nat, level: nat, ghost node: Tree, ghost vectors: seq<seq<Byte>>, ghost live: set<nat>)
      requires Holds(vectors, live) && Whole(vectors, node, level, id, live, shape) && level + 1 < shape.realSize
      modifies storage
      ensures node.Node? && Holds(vectors, FirstDeleted(live, node, |node.children|))
      decreases shape.realSize - level, 0, 2
    {
      ReadAgain(id, vectors, live);
      var bytecode := storage.Relay();
      var remainNodes := CountNodes(bytecode, node, level, shape);
      DeleteChildren(id, remainNodes, level, node, vectors, live);
    }

    /** Frees all children and what is below them. */
    method DeleteChildren(id: nat, remainNodes: nat, level: nat, ghost node: Tree, ghost vectors: seq<seq<Byte>>,
                          ghost live: set<nat>)
      requires Holds(vectors, live) && Whole(vectors, node, level, id, live, shape) && level + 1 < shape.realSize
      requires node.Node? && remainNodes == |node.children| && storage.bufOwner == id
      modifies storage
      ensures Holds(vectors, FirstDeleted(live, node, |node.children|))
      decreases shape.realSize - level, 0, 1
    {
      NoneDeleted(live, node);
      for a := 0 to remainNodes
        invariant Holds(vectors, FirstDeleted(live, node, a))
        invariant a < remainNodes ==> storage.bufOwner == id
      {
        DeleteChild(id, a, remainNodes, level, node, vectors, live, FirstDeleted(live, node, a));
      }
    }

    /** Frees one child; the node is read again unless this was the last one. */
    method DeleteChild(id: nat, a: nat, remainNodes: nat, level: nat, ghost node: Tree, ghost vectors: seq<seq<Byte>>,
                       ghost live: set<nat>, ghost rest: set<nat>)
      requires Whole(vectors, node, level, id, live, shape) && level + 1 < shape.realSize
      requires node.Node? && a < remainNodes == |node.children| && storage.bufOwner == id
      requires rest == FirstDeleted(live, node, a) && Holds(vectors, rest)
      modifies storage
      ensures Holds(vectors, FirstDeleted(live, node, a + 1)) && (a + 1 < remainNodes ==> storage.bufOwner == id)
      decreases shape.realSize - level, 0, 0
    {
      assert storage.Contents()[id] == storage.Relay();
      var child := ChildNumber(storage.Relay(), id, a, node, level, shape);
      ChildIsWhole(vectors, node, level, id, a, live, rest, shape);
      DeleteArray(child, level + 1, node.children[a].tree, vectors, rest);
      if a + 1 < remainNodes {
        ReadAgain(id, vectors, FirstDeleted(live, node, a + 1));
      }
    }

    /** Empties the map: all nodes are freed, and a new root is created. */
    method Clear()
      requires Valid()
      modifies this, storage
      ensures Valid() && contents == map[] && Ids(tree) == {rootId} && Cleared(old(Now()), Now(), rootId)
    {
      ghost var s := Now();
      RootIsWhole(s, shape);
      DeleteArray(rootId, 0, tree, s.vectors, s.live);
      NewRoot(s);
    }

    method NewRoot(ghost s: State)
      requires Sound(s, shape) && Sane(shape)
        && Holds(if s.live - Ids(s.tree) == {} then [] else s.vectors, s.live - Ids(s.tree))
      modifies this, storage
      ensures Valid() && contents == map[] && Ids(tree) == {rootId} && Cleared(s, Now(), rootId)
    {
      ghost var left := storage.Contents();
      rootId := storage.Create();
      size := 0;
      BecomeCleared(s, left);
    }

    /** The new root is all that the tree has. */
    ghost method BecomeCleared(s: State, left: seq<seq<Byte>>)
      requires Sound(s, shape) && Sane(shape) && size == 0 && storage.Valid() && rootId == |left|
      requires left == (if s.live - Ids(s.tree) == {} then [] else s.vectors)
      requires storage.Contents() == left + [[]] && storage.live == s.live - Ids(s.tree) + {rootId}
      modifies this`tree, this`contents
      ensures Valid() && contents == map[] && Ids(tree) == {rootId} && Cleared(s, Now(), rootId)
    {
      ghost var t := StateAfterClearing(s, left, rootId, shape);
      Become(t);
    }

    /** What the destructor does. */
    method Destroy()
      requires Valid()
      modifies storage
      ensures Holds(if old(storage.live) == Ids(tree) then [] else old(storage.Contents()), old(storage.live) - Ids(tree))
    {
      RootIsWhole(Now(), shape);
      DeleteArray(rootId, 0, tree, storage.Contents(), storage.live);
    }
  }
}
