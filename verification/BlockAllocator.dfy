/** radixtree/FSBAllocator.hh: units of one size, handed out from blocks. A freed unit holds the
    link of its block's free list; a hidden word behind every unit names the unit's block. */
module BlockAllocator {
  import opened RadixNodes
  import opened Wrappers
  import opened Lists

  /** The end of a free list, the largest 64-bit word. */
  const NOWHERE: nat := 0xFFFF_FFFF_FFFF_FFFF

  /** BlockElements units in a block, each of ElemSizeInDSize words and the hidden one. */
  datatype Layout = Layout(elements: nat, elemWords: nat) {
    function UnitSize(): nat {
      elemWords + 1
    }

    function Start(k: nat): nat {
      Offset(k, UnitSize())
    }

    /** Units are not empty, and a place in a block is never mistaken for the end of a list. */
    predicate Sane() {
      elements > 0 && elemWords > 0 && Start(elements) < NOWHERE
    }
  }

  // ---- Places of units ----

  /** A word belongs to one unit only. */
  lemma WordsApart(layout: Layout, j: nat, a: nat, k: nat, b: nat)
    requires a < layout.UnitSize() && b < layout.UnitSize() && layout.Start(j) + a == layout.Start(k) + b
    ensures j == k && a == b
  {
    if j < k {
      OffsetMonotone(j, k, layout.UnitSize());
    } else if k < j {
      OffsetMonotone(k, j, layout.UnitSize());
    }
  }

  lemma UnitInside(layout: Layout, k: nat, n: nat)
    requires k < n <= layout.elements
    ensures layout.Start(k) + layout.UnitSize() <= layout.Start(n) <= layout.Start(layout.elements)
  {
    OffsetMonotone(k, n, layout.UnitSize());
    OffsetMonotone(n, layout.elements, layout.UnitSize());
  }

  // ---- Free lists ----

  /** Where the free list goes on at its place `i`. */
  function LinkTo(layout: Layout, free: seq<nat>, i: nat): nat {
    if i < |free| then layout.Start(free[i]) else NOWHERE
  }

  ghost predicate LinkAt(layout: Layout, words: seq<nat>, free: seq<nat>, i: nat) {
    i < |free| && layout.Start(free[i]) < |words| && words[layout.Start(free[i])] == LinkTo(layout, free, i + 1)
  }

  /** The words link the free units in this order. */
  ghost predicate Chained(layout: Layout, words: seq<nat>, free: seq<nat>, first: nat) {
    && first == LinkTo(layout, free, 0)
    && forall i {:trigger LinkAt(layout, words, free, i)} :: 0 <= i < |free| ==> LinkAt(layout, words, free, i)
  }

  lemma ChainPopped(layout: Layout, words: seq<nat>, free: seq<nat>, first: nat)
    requires Chained(layout, words, free, first) && free != []
    ensures layout.Start(free[0]) < |words| && Chained(layout, words, free[1..], words[first])
  {
    assert LinkAt(layout, words, free, 0);
    forall i | 0 <= i < |free| - 1
      ensures LinkAt(layout, words, free[1..], i)
    {
      assert LinkAt(layout, words, free, i + 1);
    }
  }

  lemma ChainPushed(layout: Layout, words: seq<nat>, free: seq<nat>, first: nat, k: nat)
    requires Chained(layout, words, free, first) && k !in free && layout.Start(k) < |words|
    ensures Chained(layout, words[layout.Start(k) := first], [k] + free, layout.Start(k))
  {
    var words', free' := words[layout.Start(k) := first], [k] + free;
    forall i | 0 <= i < |free'|
      ensures LinkAt(layout, words', free', i)
    {
      if i > 0 {
        assert LinkAt(layout, words, free, i - 1);
        if layout.Start(free[i - 1]) == layout.Start(k) {
          WordsApart(layout, free[i - 1], 0, k, 0);
          assert false;
        }
      }
    }
  }

  /** Words other than the first ones of free units do not matter to the list. */
  lemma ChainKept(layout: Layout, words: seq<nat>, words': seq<nat>, free: seq<nat>, first: nat)
    requires Chained(layout, words, free, first) && |words'| == |words|
    requires forall i {:trigger free[i]} :: 0 <= i < |free| && layout.Start(free[i]) < |words| ==>
      words'[layout.Start(free[i])] == words[layout.Start(free[i])]
    ensures Chained(layout, words', free, first)
  {
    forall i | 0 <= i < |free|
      ensures LinkAt(layout, words', free, i)
    {
      assert LinkAt(layout, words, free, i);
    }
  }

  // ---- One block ----

  ghost predicate HiddenAt(layout: Layout, words: seq<nat>, k: nat, index: nat) {
    layout.Start(k) + layout.elemWords < |words| && words[layout.Start(k) + layout.elemWords] == index
  }

  /** The first `made` units have been used, and their hidden words name the block. */
  ghost predicate Named(layout: Layout, words: seq<nat>, made: nat, index: nat) {
    forall k {:trigger HiddenAt(layout, words, k, index)} :: 0 <= k < made ==> HiddenAt(layout, words, k, index)
  }

  /** Every used unit is either handed out or free. */
  ghost predicate Split(made: nat, live: set<nat>, free: seq<nat>) {
    && Distinct(free) && |live| + |free| == made
    && (forall k :: k in live ==> k < made && k !in free)
    && forall k :: k in free ==> k < made
  }

  lemma SplitMore(made: nat, live: set<nat>, free: seq<nat>)
    requires Split(made, live, free)
    ensures Split(made + 1, live + {made}, free) && made !in live
  {
    assert |live + {made}| == |live| + 1;
  }

  lemma SplitPopped(made: nat, live: set<nat>, free: seq<nat>)
    requires Split(made, live, free) && free != []
    ensures Split(made, live + {free[0]}, free[1..]) && free[0] !in live
  {
    assert free[0] in free && free[0] !in live;
    assert |live + {free[0]}| == |live| + 1;
    assert forall k :: k in free[1..] ==> k in free;
  }

  lemma SplitPushed(made: nat, live: set<nat>, free: seq<nat>, k: nat)
    requires Split(made, live, free) && k in live
    ensures Split(made, live - {k}, [k] + free)
  {
  }

  /** A unit's own words. */
  ghost function Payload(layout: Layout, words: seq<nat>, k: nat): seq<nat> {
    if layout.Start(k) + layout.elemWords <= |words| then words[layout.Start(k)..layout.Start(k) + layout.elemWords] else []
  }

  /** Writing a word leaves the words of other units alone. */
  lemma OtherUnits(layout: Layout, words: seq<nat>, j: nat, a: nat, value: nat)
    requires a < layout.UnitSize() && layout.Start(j) + a < |words|
    ensures forall k :: k != j ==> Payload(layout, words[layout.Start(j) + a := value], k) == Payload(layout, words, k)
  {
    var words' := words[layout.Start(j) + a := value];
    forall k {:trigger Payload(layout, words, k)} | k != j
      ensures Payload(layout, words', k) == Payload(layout, words, k)
    {
      OneOtherUnit(layout, words, j, a, value, k);
    }
  }

  /** Only the hidden words name the block. */
  lemma NamedKept(layout: Layout, words: seq<nat>, j: nat, a: nat, value: nat, made: nat, index: nat)
    requires a < layout.elemWords && layout.Start(j) + a < |words| && Named(layout, words, made, index)
    ensures Named(layout, words[layout.Start(j) + a := value], made, index)
  {
    var words' := words[layout.Start(j) + a := value];
    forall k | 0 <= k < made
      ensures HiddenAt(layout, words', k, index)
    {
      assert HiddenAt(layout, words, k, index);
      if layout.Start(k) + layout.elemWords == layout.Start(j) + a {
        WordsApart(layout, k, layout.elemWords, j, a);
        assert false;
      }
    }
  }

  lemma OneOtherUnit(layout: Layout, words: seq<nat>, j: nat, a: nat, value: nat, k: nat)
    requires a < layout.UnitSize() && layout.Start(j) + a < |words| && k != j
    ensures Payload(layout, words[layout.Start(j) + a := value], k) == Payload(layout, words, k)
  {
    var words' := words[layout.Start(j) + a := value];
    if layout.Start(k) + layout.elemWords <= |words| {
      forall i | layout.Start(k) <= i < layout.Start(k) + layout.elemWords
        ensures words'[i] == words[i]
      {
        if i == layout.Start(j) + a {
          WordsApart(layout, k, i - layout.Start(k), j, a);
          assert false;
        }
      }
    }
  }

  function With(s: seq<nat>, a: nat, value: nat): seq<nat> {
    if a < |s| then s[a := value] else s
  }

  lemma OwnUnit(layout: Layout, words: seq<nat>, k: nat, a: nat, value: nat)
    requires a < layout.elemWords && layout.Start(k) + layout.elemWords <= |words|
    ensures Payload(layout, words[layout.Start(k) + a := value], k) == With(Payload(layout, words, k), a, value)
  {
  }

  class MemBlock {
    const layout: Layout
    /** The block's words, unless it has been given back. */
    var block: Option<seq<nat>>
    var firstFreeUnitIndex: nat
    var allocatedElementsAmount: nat
    var endIndex: nat
    /** How many units have been used, which of them are handed out, and the free list. */
    ghost var made: nat
    ghost var live: set<nat>
    ghost var free: seq<nat>

    ghost predicate Valid(index: nat)
      reads this
    {
      && layout.Sane() && made <= layout.elements && allocatedElementsAmount == |live| && Split(made, live, free)
      && match block
         case None => made == 0 && firstFreeUnitIndex == NOWHERE
         case Some(words) =>
           && |words| == layout.Start(layout.elements) && endIndex == layout.Start(made) && live != {}
           && Chained(layout, words, free, firstFreeUnitIndex) && Named(layout, words, made, index)
    }

    function Words(): seq<nat>
      reads this
    {
      if block.Some? then block.value else []
    }

    predicate IsFull()
      reads this
    {
      allocatedElementsAmount == layout.elements
    }

    /** The unit taken back last goes first; a block without free units uses a new one. */
    ghost function Next(): nat
      reads this
    {
      if free != [] then free[0] else made
    }

    constructor (layout: Layout)
      requires layout.Sane()
      ensures forall index :: Valid(index)
      ensures this.layout == layout && live == {} && Next() == 0 && !IsFull()
    {
      this.layout := layout;
      block, firstFreeUnitIndex, allocatedElementsAmount, endIndex := None, NOWHERE, 0, 0;
      made, live, free := 0, {}, [];
    }

    /** Gives the block's memory back. */
    method Clear()
      modifies this`block, this`firstFreeUnitIndex
      ensures block == None && firstFreeUnitIndex == NOWHERE
    {
      block, firstFreeUnitIndex := None, NOWHERE;
    }

    /** Hands out a unit: the first one of the free list, or one that has not been used yet. */
    method Allocate(index: nat) returns (p: nat, ghost k: nat)
      requires Valid(index) && !IsFull()
      modifies this
      ensures Valid(index) && block.Some? && p == layout.Start(k) && k < layout.elements
      ensures k == old(Next()) && k !in old(live) && live == old(live) + {k}
      ensures if old(free) == [] then free == [] && made == old(made) + 1 else free == old(free)[1..] && made == old(made)
      ensures forall j :: j in old(live) ==> Payload(layout, Words(), j) == old(Payload(layout, Words(), j))
    {
      ListEmpty(index);
      if firstFreeUnitIndex == NOWHERE {
        p, k := UseNext(index);
      } else {
        p, k := Reuse(index);
      }
    }

    /** An empty list, and no other, starts nowhere. */
    lemma ListEmpty(index: nat)
      requires Valid(index)
      ensures firstFreeUnitIndex == NOWHERE <==> free == []
      ensures free != [] ==> firstFreeUnitIndex == layout.Start(free[0]) && block.Some?
    {
      if free != [] {
        assert free[0] in free;
        UnitInside(layout, free[0], made);
      }
    }

    method UseNext(index: nat) returns (p: nat, ghost k: nat)
      requires Valid(index) && !IsFull() && firstFreeUnitIndex == NOWHERE
      modifies this
      ensures Valid(index) && block.Some? && p == layout.Start(k) && k < layout.elements
      ensures k == old(made) && made == k + 1 && free == old(free)
      ensures k !in old(live) && live == old(live) + {k}
      ensures forall j :: j in old(live) ==> Payload(layout, Words(), j) == old(Payload(layout, Words(), j))
    {
      ListEmpty(index);
      if block.None? {
        var words := new nat[layout.Start(layout.elements)](i => 0);
        block, endIndex := Some(words[..]), 0;
      }
      k, p := made, endIndex;
      UnitInside(layout, k, k + 1);
      ghost var before := block.value;
      OtherUnits(layout, before, k, layout.elemWords, index);
      endIndex := endIndex + layout.UnitSize();
      block := Some(block.value[p + layout.elemWords := index]);
      allocatedElementsAmount := allocatedElementsAmount + 1;
      SplitMore(made, live, free);
      live, made := live + {k}, made + 1;
      UsedNext(layout, before, block.value, k, index);
    }

    method Reuse(index: nat) returns (p: nat, ghost k: nat)
      requires Valid(index) && firstFreeUnitIndex != NOWHERE
      modifies this
      ensures Valid(index) && block.Some? && p == layout.Start(k) && k < layout.elements
      ensures [k] + free == old(free) && made == old(made)
      ensures k !in old(live) && live == old(live) + {k} && Words() == old(Words())
    {
      ListEmpty(index);
      ChainPopped(layout, block.value, free, firstFreeUnitIndex);
      SplitPopped(made, live, free);
      assert free[0] in free;
      k, p := free[0], firstFreeUnitIndex;
      firstFreeUnitIndex := block.value[p];
      allocatedElementsAmount := allocatedElementsAmount + 1;
      live, free := live + {k}, free[1..];
    }

    /** Takes a unit back, and the whole block with the last one. */
    method Deallocate(index: nat, p: nat, ghost k: nat)
      requires Valid(index) && k in live && p == layout.Start(k)
      modifies this
      ensures Valid(index) && live == old(live) - {k}
      ensures if live == {} then block == None && made == 0 && free == [] else made == old(made) && free == [k] + old(free)
      ensures forall j :: j in live ==> Payload(layout, Words(), j) == old(Payload(layout, Words(), j))
    {
      UnitInside(layout, k, made);
      ghost var before := block.value;
      OtherUnits(layout, before, k, 0, firstFreeUnitIndex);
      NamedKept(layout, before, k, 0, firstFreeUnitIndex, made, index);
      ChainPushed(layout, before, free, firstFreeUnitIndex, k);
      SplitPushed(made, live, free, k);
      block := Some(block.value[p := firstFreeUnitIndex]);
      firstFreeUnitIndex := p;
      live, free := live - {k}, [k] + free;
      allocatedElementsAmount := allocatedElementsAmount - 1;
      if allocatedElementsAmount == 0 {
        Clear();
        made, free := 0, [];
      }
    }

    /** What the holder of a unit may do with it. */
    method Write(index: nat, p: nat, a: nat, value: nat, ghost k: nat)
      requires Valid(index) && k in live && p == layout.Start(k) && a < layout.elemWords
      modifies this`block
      ensures Valid(index) && block.Some?
        && Payload(layout, Words(), k) == With(old(Payload(layout, Words(), k)), a, value)
      ensures forall j :: j in live && j != k ==> Payload(layout, Words(), j) == old(Payload(layout, Words(), j))
    {
      UnitInside(layout, k, made);
      ghost var before := block.value;
      OtherUnits(layout, before, k, a, value);
      OwnUnit(layout, before, k, a, value);
      NamedKept(layout, before, k, a, value, made, index);
      NotFree(layout, before, free, k, a, value, firstFreeUnitIndex);
      block := Some(block.value[p + a := value]);
    }
  }

  /** A unit that has been handed out. */
  datatype Unit = Unit(block: nat, number: nat)

  /** Its address. */
  datatype Pointer = Pointer(block: nat, offset: nat)

  class ElemAllocator {
    const layout: Layout
    var blocks: seq<MemBlock>
    var blocksWithFree: seq<nat>

    /** The blocks are different ones, each of them sound under its number. */
    ghost predicate BlocksOk()
      reads this, blocks
    {
      && layout.Sane() && (forall i, j :: 0 <= i < j < |blocks| ==> blocks[i] != blocks[j])
      && forall i {:trigger BlockOk(i)} :: 0 <= i < |blocks| ==> BlockOk(i)
    }

    ghost predicate BlockOk(i: nat)
      reads this, blocks
    {
      i < |blocks| && blocks[i].layout == layout && blocks[i].Valid(i)
    }

    /** The list names exactly the blocks that are not full, and each of them once. */
    ghost predicate ListOk()
      reads this, blocks
    {
      && Distinct(blocksWithFree)
      && forall i: nat {:trigger i in blocksWithFree} :: i in blocksWithFree <==> i < |blocks| && !blocks[i].IsFull()
    }

    ghost predicate Valid()
      reads this, blocks
    {
      BlocksOk() && ListOk()
    }

    ghost predicate IsLive(u: Unit)
      reads this, blocks
    {
      u.block < |blocks| && u.number in blocks[u.block].live
    }

    /** The words that the holder of a unit may use. */
    ghost function Contents(u: Unit): seq<nat>
      reads this, blocks
    {
      if u.block < |blocks| then Payload(layout, blocks[u.block].Words(), u.number) else []
    }

    ghost predicate PointsTo(p: Pointer, u: Unit) {
      p == Pointer(u.block, layout.Start(u.number))
    }

    /** The next unit of the block that got room last. */
    ghost function NextUnit(): Unit
      requires Valid() && blocksWithFree != []
      reads this, blocks
    {
      var index := blocksWithFree[|blocksWithFree| - 1];
      assert index in blocksWithFree;
      Unit(index, blocks[index].Next())
    }

    constructor (layout: Layout)
      requires layout.Sane()
      ensures Valid() && this.layout == layout && blocks == [] && forall u :: !IsLive(u)
    {
      this.layout := layout;
      blocks, blocksWithFree := [], [];
    }

    /** Adds an empty block unless some block has room. */
    method AddBlock()
      requires Valid()
      modifies this
      ensures Valid() && blocksWithFree != [] && layout.elements > 0
      ensures |blocks| == |old(blocks)| + if old(blocksWithFree) == [] then 1 else 0
      ensures blocksWithFree == if old(blocksWithFree) == [] then [|old(blocks)|] else old(blocksWithFree)
      ensures |old(blocks)| <= |blocks| && blocks[..|old(blocks)|] == old(blocks)
      ensures forall i :: |old(blocks)| <= i < |blocks| ==> fresh(blocks[i]) && blocks[i].live == {} && blocks[i].Next() == 0
    {
      if blocksWithFree == [] {
        blocksWithFree := [|blocks|];
        var block := new MemBlock(layout);
        ghost var before := blocks;
        blocks := blocks + [block];
        forall i | 0 <= i < |blocks|
          ensures BlockOk(i)
        {
          if i < |before| {
            assert old(BlockOk(i)) && blocks[i] == before[i];
          }
        }
      }
    }

    lemma EachBlockOk()
      requires BlocksOk()
      ensures forall i :: 0 <= i < |blocks| ==> blocks[i].layout == layout && blocks[i].Valid(i)
    {
      forall i | 0 <= i < |blocks|
        ensures blocks[i].layout == layout && blocks[i].Valid(i)
      {
        assert BlockOk(i);
      }
    }

    /** Changes the list and no block. */
    method SetList(list: seq<nat>)
      requires BlocksOk()
      modifies this`blocksWithFree
      ensures BlocksOk() && blocksWithFree == list
    {
      EachBlockOk();
      blocksWithFree := list;
      forall i | 0 <= i < |blocks|
        ensures BlockOk(i)
      {
        assert blocks[i].Valid(i);
      }
    }

    /** Changes one block and no other. */
    method AllocateIn(index: nat) returns (offset: nat, ghost k: nat)
      requires BlocksOk() && index < |blocks| && !blocks[index].IsFull()
      modifies blocks[index]
      ensures BlocksOk() && offset == layout.Start(k)
      ensures k == old(blocks[index].Next())
      ensures k !in old(blocks[index].live) && blocks[index].live == old(blocks[index].live) + {k}
      ensures forall i :: 0 <= i < |blocks| && i != index ==> unchanged(blocks[i])
      ensures forall v :: old(IsLive(v)) ==> Contents(v) == old(Contents(v))
    {
      assert BlockOk(index);
      ghost var bs := blocks;
      EachBlockOk();
      offset, k := blocks[index].Allocate(index);
      forall i | 0 <= i < |blocks|
        ensures BlockOk(i)
      {
        assert i != index ==> bs[i] != bs[index];
      }
    }

    /** Hands out a unit that is not in use, and leaves all others alone. There is a new block
        exactly if no block has room. */
    method Allocate() returns (p: Pointer, ghost u: Unit)
      requires Valid()
      modifies this, blocks
      ensures Valid() && PointsTo(p, u) && !old(IsLive(u))
      ensures |blocks| == |old(blocks)| + if old(blocksWithFree) == [] then 1 else 0
      ensures if old(blocksWithFree) == [] then u == Unit(|old(blocks)|, 0) else u == old(NextUnit())
      ensures forall v :: IsLive(v) <==> v == u || old(IsLive(v))
      ensures forall v :: old(IsLive(v)) ==> Contents(v) == old(Contents(v))
      ensures forall i :: 0 <= i < |blocks| ==> blocks[i] in old(blocks) || fresh(blocks[i])
    {
      AddBlock();
      p, u := AllocateLast();
    }

    /** Hands out a unit of the last block in the list. */
    method AllocateLast() returns (p: Pointer, ghost u: Unit)
      requires Valid() && blocksWithFree != []
      modifies this`blocksWithFree, blocks
      ensures Valid() && PointsTo(p, u) && !old(IsLive(u)) && u == old(NextUnit())
      ensures forall v :: IsLive(v) <==> v == u || old(IsLive(v))
      ensures forall v :: old(IsLive(v)) ==> Contents(v) == old(Contents(v))
    {
      var last := |blocksWithFree| - 1;
      var index := blocksWithFree[last];
      assert index in blocksWithFree;
      ghost var k;
      var offset;
      offset, k := AllocateIn(index);
      p, u := Pointer(index, offset), Unit(index, k);
      if blocks[index].IsFull() {
        DropLast(blocksWithFree, last);
        SetList(blocksWithFree[..last]);
      }
    }

    method DeallocateIn(index: nat, offset: nat, ghost k: nat)
      requires BlocksOk() && index < |blocks| && k in blocks[index].live && offset == layout.Start(k)
      modifies blocks[index]
      ensures BlocksOk() && blocks[index].live == old(blocks[index].live) - {k} && !blocks[index].IsFull()
      ensures forall i :: 0 <= i < |blocks| && i != index ==> unchanged(blocks[i])
      ensures forall v :: IsLive(v) ==> Contents(v) == old(Contents(v))
    {
      assert BlockOk(index);
      ghost var bs := blocks;
      EachBlockOk();
      blocks[index].Deallocate(index, offset, k);
      forall i | 0 <= i < |blocks|
        ensures BlockOk(i)
      {
        assert i != index ==> bs[i] != bs[index];
      }
    }

    /** The hidden word behind a unit tells which block it belongs to. */
    method BlockIndex(p: Pointer, ghost u: Unit) returns (index: nat)
      requires BlocksOk() && IsLive(u) && PointsTo(p, u)
      ensures index == u.block
    {
      assert BlockOk(u.block);
      var words := blocks[p.block].block.value;
      assert HiddenAt(layout, words, u.number, u.block);
      index := words[p.offset + layout.elemWords];
    }

    /** Takes back a unit. */
    method Deallocate(ptr: Option<Pointer>, ghost u: Unit)
      requires Valid() && (ptr.Some? ==> IsLive(u) && PointsTo(ptr.value, u))
      modifies this`blocksWithFree, blocks
      ensures Valid()
      ensures blocksWithFree ==
              old(blocksWithFree) + if ptr.Some? && old(blocks[u.block].IsFull()) then [u.block] else []
      ensures forall v :: IsLive(v) <==> old(IsLive(v)) && !(ptr.Some? && v == u)
      ensures forall v :: IsLive(v) ==> Contents(v) == old(Contents(v))
    {
      if ptr.Some? {
        var index := BlockIndex(ptr.value, u);
        if blocks[index].IsFull() {
          assert index !in blocksWithFree;
          SetList(blocksWithFree + [index]);
        }
        DeallocateIn(index, ptr.value.offset, u.number);
      }
    }

    /** The holder of a unit writes one of its words. */
    method Write(p: Pointer, a: nat, value: nat, ghost u: Unit)
      requires Valid() && IsLive(u) && PointsTo(p, u) && a < layout.elemWords
      modifies blocks
      ensures Valid() && Contents(u) == With(old(Contents(u)), a, value)
      ensures forall v :: IsLive(v) <==> old(IsLive(v))
      ensures forall v :: IsLive(v) && v != u ==> Contents(v) == old(Contents(v))
    {
      assert BlockOk(u.block);
      ghost var bs := blocks;
      EachBlockOk();
      blocks[p.block].Write(p.block, p.offset, a, value, u.number);
      forall i | 0 <= i < |blocks|
        ensures BlockOk(i)
      {
        assert i != p.block ==> bs[i] != bs[p.block];
      }
    }
  }

  /** The last of different numbers is dropped, and only that. */
  lemma DropLast(s: seq<nat>, last: nat)
    requires Distinct(s) && last + 1 == |s|
    ensures Distinct(s[..last]) && forall i :: i in s[..last] <==> i in s && i != s[last]
  {
  }

  lemma UsedNext(layout: Layout, words: seq<nat>, words': seq<nat>, k: nat, index: nat)
    requires layout.Start(k) + layout.elemWords < |words|
      && words' == words[layout.Start(k) + layout.elemWords := index]
    requires Named(layout, words, k, index)
    ensures Named(layout, words', k + 1, index)
  {
    forall j | 0 <= j < k + 1
      ensures HiddenAt(layout, words', j, index)
    {
      if j < k {
        assert HiddenAt(layout, words, j, index);
        if layout.Start(j) + layout.elemWords == layout.Start(k) + layout.elemWords {
          WordsApart(layout, j, layout.elemWords, k, layout.elemWords);
          assert false;
        }
      }
    }
  }

  /** Writing to a unit that is not free does not disturb the free list. */
  lemma NotFree(layout: Layout, words: seq<nat>, free: seq<nat>, k: nat, a: nat, value: nat, first: nat)
    requires k !in free && a < layout.elemWords && layout.Start(k) + a < |words| && Chained(layout, words, free, first)
    ensures Chained(layout, words[layout.Start(k) + a := value], free, first)
  {
    var words' := words[layout.Start(k) + a := value];
    forall i | 0 <= i < |free| && layout.Start(free[i]) < |words|
      ensures words'[layout.Start(free[i])] == words[layout.Start(free[i])]
    {
      if layout.Start(free[i]) == layout.Start(k) + a {
        WordsApart(layout, free[i], 0, k, a);
        assert false;
      }
    }
    ChainKept(layout, words, words', free, first);
  }
}
