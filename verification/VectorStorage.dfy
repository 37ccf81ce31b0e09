/** radixtree/vectorstorage.cc and radixtree/storage.hh: byte vectors with numbers, kept in one
    growing memory block and read and written through a single relay buffer, which is either a
    view of the block or a changed copy of its own. */
module VectorStorage {
  import opened Endian
  import opened VectorLayout

  /** Growth of a memory block. */
  function Capacity(endPos: nat): (cap: nat)
    ensures cap >= endPos
  {
    (endPos + 0xF_FFFF) / 0x10_0000 * 0x10_0000
  }

  /** The least number of whole megabytes that reaches to `endPos`. */
  ghost predicate LeastMegabytes(cap: nat, endPos: nat) {
    cap % 0x10_0000 == 0 && endPos <= cap < endPos + 0x10_0000
  }

  lemma CapacityIsLeast(endPos: nat)
    ensures LeastMegabytes(Capacity(endPos), endPos)
  {
  }

  function VecBytes(data: seq<Byte>, v: StupidVec): seq<Byte> {
    if v.ptr + v.length <= |data| then data[v.ptr..v.ptr + v.length] else []
  }

  /** All vectors; the one in the relay buffer is what the buffer says. */
  function AllContents(data: seq<Byte>, ptrs: seq<StupidVec>, owner: nat, relay: seq<Byte>): (contents: seq<seq<Byte>>)
    ensures |contents| == |ptrs|
    ensures forall i :: 0 <= i < |ptrs| ==> contents[i] == if i == owner then relay else VecBytes(data, ptrs[i])
  {
    seq(|ptrs|, i requires 0 <= i < |ptrs| => if i == owner then relay else VecBytes(data, ptrs[i]))
  }

  /** The bytes in all ranges. */
  function AllRanges(data: seq<Byte>, ptrs: seq<StupidVec>): (ranges: seq<seq<Byte>>)
    ensures |ranges| == |ptrs|
    ensures forall i :: 0 <= i < |ptrs| ==> ranges[i] == VecBytes(data, ptrs[i])
  {
    seq(|ptrs|, i requires 0 <= i < |ptrs| => VecBytes(data, ptrs[i]))
  }

  /** `s` with `size` bytes from `pos` on replaced. */
  function Spliced(s: seq<Byte>, pos: nat, size: nat, source: seq<Byte>): seq<Byte>
    requires pos + size <= |s|
  {
    s[..pos] + source + s[pos + size..]
  }

  // ---- Memory blocks ----

  /** A block of fresh memory, which may hold anything. */
  method Allocate(n: nat) returns (block: seq<Byte>)
    ensures |block| == n
  {
    block := seq(n, i => 0);
  }

  /** Copies bytes over a part of a block. */
  function Copied(s: seq<Byte>, pos: nat, source: seq<Byte>): (t: seq<Byte>)
    requires pos + |source| <= |s|
    ensures |t| == |s|
  {
    s[..pos] + source + s[pos + |source|..]
  }

  class VectorStorage {
    /** The memory block, and how much of it is in use. */
    var buf: seq<Byte>
    var size: nat
    var holes: seq<Hole>
    /** The vectors' places; the next number is the length of the list. */
    var ptrs: seq<StupidVec>
    var used: nat
    /** The relay buffer: a block of its own, or else the part of the memory block at `start`. */
    var own: seq<Byte>
    var start: nat
    var length: nat
    var owned: bool
    var changed: bool
    var bufOwner: nat
    /** The numbers that have been created and not freed. */
    ghost var live: set<nat>

    /** A borrowed buffer views its owner's current range; an owned one has been changed. */
    ghost predicate RelayOk()
      reads this`buf, this`ptrs, this`own, this`start, this`length, this`owned, this`changed, this`bufOwner
    {
      && length <= MAX_LENGTH
      && (bufOwner < |ptrs| || (bufOwner == 0 && ptrs == [] && length == 0))
      && (owned ==> changed && length == |own|)
      && (!owned ==> start + length <= |buf|)
      && (!owned && changed ==> length == 0)
      && (!changed && bufOwner < |ptrs| ==> length == ptrs[bufOwner].length && (length > 0 ==> start == ptrs[bufOwner].ptr))
    }

    ghost predicate StorageOk()
      reads this`buf, this`size, this`holes, this`ptrs
    {
      Laid(ptrs, holes, size) && size <= |buf|
    }

    ghost predicate LiveOk()
      reads this`ptrs, this`used, this`live
    {
      used == |live| && forall id :: id in live ==> id < |ptrs|
    }

    ghost predicate Valid()
      reads this
    {
      RelayOk() && StorageOk() && LiveOk()
    }

    /** What the relay buffer holds. */
    function Relay(): seq<Byte>
      reads this`buf, this`own, this`start, this`length, this`owned
    {
      if owned then own
      else if start + length <= |buf| then buf[start..start + length]
      else []
    }

    ghost function Contents(): (contents: seq<seq<Byte>>)
      reads this`buf, this`ptrs, this`own, this`start, this`length, this`owned, this`bufOwner
      ensures |contents| == |ptrs|
    {
      AllContents(buf, ptrs, bufOwner, Relay())
    }

    constructor ()
      ensures Valid() && Contents() == [] && live == {}
    {
      buf, size, holes, ptrs, used := [], 0, [], [], 0;
      own, start, length, owned, changed, bufOwner := [], 0, 0, false, false, 0;
      live := {};
    }

    /** Makes sure that the block reaches to `endPos`. */
    method Ensure(endPos: nat)
      modifies this`buf, this`size
      ensures size == (if endPos > old(size) then endPos else old(size)) && endPos <= |buf|
      ensures if endPos > |old(buf)| then LeastMegabytes(|buf|, endPos) else |buf| == |old(buf)|
      ensures |old(buf)| <= |buf| && buf[..|old(buf)|] == old(buf)
    {
      if endPos > size {
        size := endPos;
      }
      if endPos > |buf| {
        CapacityIsLeast(endPos);
        var more := Allocate(Capacity(endPos) - |buf|);
        buf := buf + more;
      }
    }

    /** Creates an empty vector. */
    method Create() returns (id: nat)
      requires Valid()
      modifies this`used, this`ptrs, this`live
      ensures Valid() && id == |old(ptrs)| && live == old(live) + {id}
      ensures Contents() == old(Contents()) + [[]]
    {
      hide Laid, AllContents, VecBytes;
      VectorAdded(ptrs, holes, size);
      ContentsGrow(buf, ptrs, bufOwner, Relay());
      used := used + 1;
      id := |ptrs|;
      ptrs := ptrs + [StupidVec(0, 0, 0)];
      live := live + {id};
    }

    /** Finds a place for the changed vector, which has outgrown its range: a hole of the right
        size, or else the end of the block. The old range becomes a hole. */
    method Place()
      requires Valid() && changed && bufOwner < |ptrs| && length > ptrs[bufOwner].alloc
      modifies this`holes, this`ptrs
      ensures |ptrs| == |old(ptrs)| && forall i :: 0 <= i < |ptrs| && i != bufOwner ==> ptrs[i] == old(ptrs)[i]
      ensures Relocated(old(holes), size, old(ptrs)[bufOwner], length, holes, ptrs[bufOwner])
      ensures PlacedWell(ptrs, holes, size, bufOwner, length)
    {
      var n, v := bufOwner, ptrs[bufOwner];
      ghost var before, vecs := holes, ptrs;
      assert Laid(vecs, before, size);
      hide *;
      AllocCovers(length);
      var desired := AllocFor(length);
      if size == 0 {
        holes := [];
      }
      if v.alloc > 0 {
        holes := holes + [Hole(v.alloc, v.ptr)];
      }
      if k: nat :| k < |holes| && holes[k].size == desired {
        ptrs := ptrs[n := StupidVec(holes[k].pos, v.length, desired)];
        PlacedInHole(vecs, before, size, n, length, holes, k, ptrs[n]);
        holes := Without(holes, k);
      } else {
        ptrs := ptrs[n := StupidVec(size, v.length, desired)];
        PlacedAtEnd(vecs, before, size, n, length, holes, ptrs[n]);
      }
    }

    /** Gives the changed vector its new length, and a new range if it needs one. */
    method Reserve()
      requires Valid() && changed && bufOwner < |ptrs|
      modifies this`holes, this`ptrs
      ensures |ptrs| == |old(ptrs)| && forall i :: 0 <= i < |ptrs| && i != bufOwner ==> ptrs[i] == old(ptrs)[i]
      ensures Settled(old(holes), size, old(ptrs)[bufOwner], length, holes, ptrs[bufOwner])
      ensures ptrs[bufOwner].length == length <= ptrs[bufOwner].alloc
      ensures Laid(ptrs, holes, if length > 0 then NewSize(size, ptrs[bufOwner]) else size)
    {
      ghost var before, vecs := holes, ptrs;
      hide Laid, Offered;
      if length > ptrs[bufOwner].alloc {
        Place();
      }
      LengthChanged(vecs, before, size, bufOwner, length, ptrs, holes);
      ptrs := ptrs[bufOwner := ptrs[bufOwner].(length := length)];
    }

    /** Copies bytes to a range of the block, which grows to hold the range. */
    method WriteRange(ptr: nat, alloc: nat, source: seq<Byte>)
      requires |source| <= alloc && size <= |buf|
      modifies this`buf, this`size
      ensures size == (if ptr + alloc > old(size) then ptr + alloc else old(size)) && size <= |buf|
      ensures ptr + |source| <= |buf| && buf[ptr..ptr + |source|] == source
      ensures SameOutside(old(buf), buf, ptr, |source|)
    {
      ghost var before := buf;
      Ensure(ptr + alloc);
      ghost var grown := buf;
      assert forall k :: 0 <= k < |before| ==> grown[k] == before[k];
      buf := Copied(buf, ptr, source);
    }

    /** Writes the relay buffer back to its owner's range. */
    method Reassign()
      requires Valid() && changed && bufOwner < |ptrs|
      modifies this`holes, this`ptrs, this`buf, this`size
      ensures StorageOk() && |ptrs| == |old(ptrs)|
      ensures Settled(old(holes), old(size), old(ptrs)[bufOwner], length, holes, ptrs[bufOwner])
      ensures ptrs[bufOwner].length == length && VecBytes(buf, ptrs[bufOwner]) == old(Relay())
      ensures OthersSame(old(ptrs), ptrs, old(buf), buf, bufOwner)
    {
      ghost var before, vecs := buf, ptrs;
      hide VecsOk, HolesOk, Filled, Settled, AllContents, RangesInside, OthersSame;
      InsideBlock(vecs, size, before);
      Reserve();
      if length > 0 {
        WriteRange(ptrs[bufOwner].ptr, ptrs[bufOwner].alloc, own);
      }
      OthersKept(vecs, ptrs, before, buf, bufOwner, size);
    }

    /** Makes the relay buffer show vector `n`; a changed vector is written back first. */
    method Read(n: nat)
      requires Valid() && n < |ptrs|
      modifies this
      ensures Valid() && bufOwner == n && Contents() == old(Contents()) && live == old(live) && Relay() == Contents()[n]
    {
      if n != bufOwner {
        WriteBack();
        Borrow(n);
      }
    }

    /** Afterwards every vector's range holds its bytes. */
    method WriteBack()
      requires Valid() && bufOwner < |ptrs|
      modifies this`holes, this`ptrs, this`buf, this`size
      ensures StorageOk() && |ptrs| == |old(ptrs)|
      ensures AllRanges(buf, ptrs) == old(Contents())
    {
      if changed {
        Reassign();
      } else {
        BorrowedIsRange();
      }
    }

    /** The bytes of a borrowed buffer are those of its owner's range. */
    lemma BorrowedIsRange()
      requires Valid() && !changed && bufOwner < |ptrs|
      ensures VecBytes(buf, ptrs[bufOwner]) == Relay()
    {
      assert VecFits(ptrs[bufOwner], size);
    }

    /** The relay buffer becomes a view of the range of vector `n`. */
    method Borrow(n: nat)
      requires StorageOk() && LiveOk() && n < |ptrs|
      modifies this`own, this`start, this`length, this`owned, this`changed, this`bufOwner
      ensures Valid() && bufOwner == n && !changed
      ensures Contents() == AllRanges(buf, ptrs)
    {
      bufOwner := n;
      var v := ptrs[n];
      assert VecFits(v, size);
      own, start, length, owned, changed := [], v.ptr, v.length, false, false;
      ContentsAreRanges(buf, ptrs, n, Relay());
    }

    /** Replaces the whole relay buffer. */
    method Assign(source: seq<Byte>)
      requires RelayOk() && bufOwner < |ptrs| && |source| <= MAX_LENGTH
      modifies this`own, this`length, this`owned, this`changed
      ensures RelayOk() && owned && Relay() == source
    {
      if !owned {
        length := |source|;
        own := Allocate(length);
        owned := true;
      }
      if length != |source| {
        length := |source|;
        own := Allocate(length);
      }
      own := Copied(own, 0, source);
      assert own == source;
      changed := true;
    }

    /** Moves the owned buffer to a block of another length. */
    method Reallocate(newLength: nat)
      modifies this`own
      ensures |own| == newLength
      ensures forall k :: 0 <= k < newLength && k < |old(own)| ==> own[k] == old(own)[k]
    {
      if newLength <= |own| {
        own := own[..newLength];
      } else {
        var more := Allocate(newLength - |own|);
        own := own + more;
      }
    }

    /** Replaces a part of the relay buffer by bytes of another length. */
    method Replace(beginPos: nat, origSize: nat, source: seq<Byte>)
      requires Valid() && bufOwner < |ptrs| && beginPos + origSize <= length
        && length - origSize + |source| <= MAX_LENGTH
      modifies this
      ensures Valid() && live == old(live) && bufOwner == old(bufOwner) && beginPos + origSize <= |old(Relay())|
      ensures Contents() == old(Contents())[bufOwner := Spliced(old(Relay()), beginPos, origSize, source)]
    {
      hide Laid, AllContents;
      ghost var before := Relay();
      if origSize == length {
        assert Spliced(before, beginPos, origSize, source) == source;
        Assign(source);
      } else {
        ReplacePart(beginPos, origSize, source);
      }
      RelayReplaced(buf, ptrs, bufOwner, before, Relay());
    }

    method ReplacePart(beginPos: nat, origSize: nat, source: seq<Byte>)
      requires RelayOk() && bufOwner < |ptrs| && beginPos + origSize <= length
        && length - origSize + |source| <= MAX_LENGTH
      modifies this`own, this`length, this`owned, this`changed
      ensures RelayOk() && owned && beginPos + origSize <= |old(Relay())|
      ensures Relay() == Spliced(old(Relay()), beginPos, origSize, source)
    {
      if !owned {
        Assign(buf[start..start + length]);
      }
      ReplaceOwned(beginPos, origSize, source);
      changed := true;
    }

    method ReplaceOwned(beginPos: nat, origSize: nat, source: seq<Byte>)
      requires owned && length == |own| && beginPos + origSize <= length
      modifies this`own, this`length
      ensures length == |own| && own == Spliced(old(own), beginPos, origSize, source)
    {
      ghost var before := own;
      ResizeTail(beginPos, origSize, |source|);
      SplicedParts(before, beginPos, origSize, source, own);
      own := Copied(own, beginPos, source);
    }

    /** Moves what follows the replaced part, so that `newSize` bytes fit in front of it. */
    method ResizeTail(beginPos: nat, origSize: nat, newSize: nat)
      requires owned && length == |own| && beginPos + origSize <= length
      modifies this`own, this`length
      ensures length == |own| && TailMoved(old(own), own, beginPos, origSize, newSize)
    {
      var tailSize := length - (beginPos + origSize);
      if newSize > origSize {
        var diff := newSize - origSize;
        Reallocate(length + diff);
        own := Copied(own, beginPos + newSize, own[beginPos + origSize..beginPos + origSize + tailSize]);
        length := length + diff;
      } else if newSize < origSize {
        var diff := origSize - newSize;
        own := Copied(own, beginPos + newSize, own[beginPos + origSize..beginPos + origSize + tailSize]);
        Reallocate(length - diff);
        length := length - diff;
      }
    }

    /** Writes through a pointer into the relay buffer, whichever memory it shows. */
    method WriteThrough(pos: nat, source: seq<Byte>)
      requires Valid() && bufOwner < |ptrs| && pos + |source| <= length
      modifies this`own, this`buf
      ensures Valid() && pos + |source| <= |old(Relay())|
      ensures Contents() == old(Contents())[bufOwner := Spliced(old(Relay()), pos, |source|, source)]
    {
      hide VecsOk, HolesOk, Filled, AllContents, RangesInside, OthersSame, Spliced, SameOutside;
      ghost var before, relay := buf, Relay();
      WriteRelay(pos, source);
      InsideBlock(ptrs, size, before);
      OthersKept(ptrs, ptrs, before, buf, bufOwner, size);
      OnlyRelayWritten(ptrs, before, buf, bufOwner, relay, Relay());
    }

    method WriteRelay(pos: nat, source: seq<Byte>)
      requires Valid() && bufOwner < |ptrs| && pos + |source| <= length
      modifies this`own, this`buf
      ensures |buf| == |old(buf)| && |own| == |old(own)| && pos + |source| <= |old(Relay())|
      ensures Relay() == Spliced(old(Relay()), pos, |source|, source)
      ensures SameOutside(old(buf), buf, ptrs[bufOwner].ptr, ptrs[bufOwner].length)
    {
      hide Laid, Copied, Spliced, SameOutside, LiveOk;
      ghost var relay, before, v := Relay(), buf, ptrs[bufOwner];
      if owned {
        own := Copied(own, pos, source);
        CopiedIsSpliced(relay, pos, source);
        SameAsBefore(before, v.ptr, v.length);
      } else {
        buf := Copied(buf, start + pos, source);
        CopiedToRelay(before, start, length, pos, source, v);
      }
    }

    /** Wipes everything. */
    method Clear()
      modifies this
      ensures Valid() && Contents() == [] && live == {}
    {
      ptrs, size, used, live := [], 0, 0, {};
      bufOwner := 0;
      own, start, length, owned, changed := [], 0, 0, false, true;
    }

    /** Frees a vector; everything is wiped exactly when no vector is left. */
    method Free(id: nat)
      requires Valid() && id in live
      modifies this
      ensures Valid() && live == old(live) - {id}
      ensures Contents() == if live == {} then [] else old(Contents())
      ensures live != {} ==> bufOwner == old(bufOwner)
    {
      Forget(id);
      if used == 0 {
        Clear();
      }
    }

    /** One vector less: the contents do not depend on how many are alive. */
    method Forget(id: nat)
      requires LiveOk() && id in live
      modifies this`used, this`live
      ensures LiveOk() && live == old(live) - {id} && (used == 0 <==> live == {})
    {
      used := used - 1;
      live := live - {id};
    }
  }

  /** One more vector, which is empty; it may be the first one. */
  lemma ContentsGrow(data: seq<Byte>, ptrs: seq<StupidVec>, owner: nat, relay: seq<Byte>)
    requires owner < |ptrs| || (owner == 0 && ptrs == [] && relay == [])
    ensures AllContents(data, ptrs + [StupidVec(0, 0, 0)], owner, relay) == AllContents(data, ptrs, owner, relay) + [[]]
  {
  }

  lemma ContentsAreRanges(data: seq<Byte>, ptrs: seq<StupidVec>, owner: nat, relay: seq<Byte>)
    requires owner < |ptrs| && relay == VecBytes(data, ptrs[owner])
    ensures AllContents(data, ptrs, owner, relay) == AllRanges(data, ptrs)
  {
  }

  lemma OnlyRelayWritten(ptrs: seq<StupidVec>, data: seq<Byte>, data': seq<Byte>, owner: nat, before: seq<Byte>,
                         after: seq<Byte>)
    requires owner < |ptrs| && OthersSame(ptrs, ptrs, data, data', owner)
    ensures AllContents(data', ptrs, owner, after) == AllContents(data, ptrs, owner, before)[owner := after]
  {
  }

  /** Only the vector in the relay buffer changes with it. */
  lemma RelayReplaced(data: seq<Byte>, ptrs: seq<StupidVec>, owner: nat, before: seq<Byte>, after: seq<Byte>)
    requires owner < |ptrs|
    ensures AllContents(data, ptrs, owner, after) == AllContents(data, ptrs, owner, before)[owner := after]
  {
  }

  /** What follows the replaced part has moved. */
  ghost predicate TailMoved(before: seq<Byte>, after: seq<Byte>, pos: nat, origSize: nat, newSize: nat) {
    && pos + origSize <= |before| && |after| == |before| - origSize + newSize
    && after[..pos] == before[..pos] && after[pos + newSize..] == before[pos + origSize..]
  }

  lemma SplicedParts(s: seq<Byte>, pos: nat, size: nat, source: seq<Byte>, moved: seq<Byte>)
    requires TailMoved(s, moved, pos, size, |source|)
    ensures Copied(moved, pos, source) == Spliced(s, pos, size, source)
  {
  }

  lemma CopiedIsSpliced(s: seq<Byte>, pos: nat, source: seq<Byte>)
    requires pos + |source| <= |s|
    ensures Copied(s, pos, source) == Spliced(s, pos, |source|, source)
  {
  }

  lemma SameAsBefore(data: seq<Byte>, ptr: nat, length: nat)
    ensures SameOutside(data, data, ptr, length)
  {
  }

  /** Writing into the part of the block that the relay buffer views writes its owner's range. */
  lemma CopiedToRelay(before: seq<Byte>, start: nat, length: nat, pos: nat, source: seq<Byte>, v: StupidVec)
    requires start + length <= |before| && pos + |source| <= length
    requires length > 0 ==> start == v.ptr && length == v.length
    ensures var after := Copied(before, start + pos, source);
      && after[start..start + length] == Spliced(before[start..start + length], pos, |source|, source)
      && SameOutside(before, after, v.ptr, v.length)
  {
    var after, part := Copied(before, start + pos, source), before[start..start + length];
    var spliced := Spliced(part, pos, |source|, source);
    assert |spliced| == length == |after[start..start + length]|;
    forall k | 0 <= k < length
      ensures after[start..start + length][k] == spliced[k]
    {
      assert after[start..start + length][k] == after[start + k];
      assert k < pos || k >= pos + |source| ==> after[start + k] == before[start + k] == part[k];
    }
    assert length == 0 ==> after == before;
  }

  /** Every range lies inside the block. */
  ghost predicate RangesInside(vecs: seq<StupidVec>, data: seq<Byte>) {
    forall i :: 0 <= i < |vecs| ==> vecs[i].ptr + vecs[i].alloc <= |data|
  }

  lemma InsideBlock(vecs: seq<StupidVec>, size: nat, data: seq<Byte>)
    requires VecsOk(vecs, size) && size <= |data|
    ensures RangesInside(vecs, data)
  {
    forall i | 0 <= i < |vecs|
      ensures vecs[i].ptr + vecs[i].alloc <= |data|
    {
      assert VecFits(vecs[i], size);
    }
  }

  ghost predicate OthersSame(vecs: seq<StupidVec>, vecs': seq<StupidVec>, before: seq<Byte>, after: seq<Byte>, n: nat) {
    |vecs'| == |vecs| && forall i :: 0 <= i < |vecs| && i != n ==> VecBytes(after, vecs'[i]) == VecBytes(before, vecs[i])
  }

  /** The bytes outside of a range are as before. */
  ghost predicate SameOutside(before: seq<Byte>, after: seq<Byte>, ptr: nat, length: nat) {
    |before| <= |after| && forall k :: 0 <= k < |before| && !(ptr <= k < ptr + length) ==> after[k] == before[k]
  }

  /** Vectors other than `n` keep their bytes when only the range of `n` is written. */
  lemma OthersKept(vecs: seq<StupidVec>, vecs': seq<StupidVec>, before: seq<Byte>, after: seq<Byte>, n: nat, size: nat)
    requires n < |vecs'| == |vecs| && VecsOk(vecs', size) && RangesInside(vecs, before)
    requires forall i :: 0 <= i < |vecs| && i != n ==> vecs'[i] == vecs[i]
    requires SameOutside(before, after, vecs'[n].ptr, vecs'[n].length)
    ensures OthersSame(vecs, vecs', before, after, n)
  {
    forall i | 0 <= i < |vecs| && i != n
      ensures VecBytes(after, vecs'[i]) == VecBytes(before, vecs[i])
    {
      assert VecFits(vecs'[i], size) && VecFits(vecs'[n], size);
      assert VecsApart(vecs'[if i < n then i else n], vecs'[if i < n then n else i]);
      SameRange(before, after, vecs'[n], vecs[i]);
    }
  }

  lemma SameRange(before: seq<Byte>, after: seq<Byte>, written: StupidVec, v: StupidVec)
    requires SameOutside(before, after, written.ptr, written.length) && written.length <= written.alloc
      && v.length <= v.alloc
    requires Apart(written.ptr, written.alloc, v.ptr, v.alloc) && v.ptr + v.alloc <= |before|
    ensures VecBytes(after, v) == VecBytes(before, v)
  {
  }
}
