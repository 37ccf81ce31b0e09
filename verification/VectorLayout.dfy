/** Where the vectors of radixtree/vectorstorage.cc lie in the storage: every vector owns a
    range of it, freed ranges are holes, and no two ranges overlap. */
module VectorLayout {

  /** A vector's place; `alloc` bytes are reserved for it. */
  datatype StupidVec = StupidVec(ptr: nat, length: nat, alloc: nat)

  datatype Hole = Hole(size: nat, pos: nat)

  /** Lengths are 16-bit numbers. */
  const LENGTH_LIMIT: nat := 0x1_0000
  const MAX_LENGTH: nat := 65532

  /** `(length + 3) & ~3` */
  function RoundedUp(length: nat): nat {
    (length + 3) / 4 * 4
  }

  /** The reserved length, stored in 16 bits. */
  function AllocFor(length: nat): nat {
    RoundedUp(length) % LENGTH_LIMIT
  }

  /** The reserved length covers a 16-bit length exactly up to 65532. */
  lemma AllocCovers(length: nat)
    requires length < LENGTH_LIMIT
    ensures AllocFor(length) >= length <==> length <= MAX_LENGTH
  {
    if length > MAX_LENGTH {
      assert RoundedUp(length) == LENGTH_LIMIT;
    } else {
      assert RoundedUp(length) <= MAX_LENGTH;
    }
  }

  /** Up to 65532 the reserved length is the least multiple of 4 that covers the length. */
  lemma AllocIsLeast(length: nat)
    requires length <= MAX_LENGTH
    ensures AllocFor(length) % 4 == 0 && length <= AllocFor(length) < length + 4
  {
    AllocCovers(length);
    assert RoundedUp(length) <= MAX_LENGTH;
  }

  /** Two ranges have no byte in common. */
  predicate Apart(p: nat, m: nat, q: nat, n: nat) {
    m == 0 || n == 0 || p + m <= q || q + n <= p
  }

  ghost predicate VecFits(v: StupidVec, size: nat) {
    v.length <= v.alloc <= MAX_LENGTH && v.ptr + v.alloc <= size
  }

  ghost predicate VecsApart(v: StupidVec, w: StupidVec) {
    Apart(v.ptr, v.alloc, w.ptr, w.alloc)
  }

  ghost predicate VecsOk(vecs: seq<StupidVec>, size: nat) {
    && (forall i {:trigger VecFits(vecs[i], size)} :: 0 <= i < |vecs| ==> VecFits(vecs[i], size))
    && forall i, j {:trigger VecsApart(vecs[i], vecs[j])} :: 0 <= i < j < |vecs| ==> VecsApart(vecs[i], vecs[j])
  }

  ghost predicate HoleFree(h: Hole, vecs: seq<StupidVec>, size: nat) {
    && h.size > 0 && h.pos + h.size <= size
    && forall i :: 0 <= i < |vecs| ==> Apart(h.pos, h.size, vecs[i].ptr, vecs[i].alloc)
  }

  ghost predicate HolesApart(h: Hole, k: Hole) {
    Apart(h.pos, h.size, k.pos, k.size)
  }

  ghost predicate HolesOk(holes: seq<Hole>, vecs: seq<StupidVec>, size: nat) {
    && (forall k {:trigger HoleFree(holes[k], vecs, size)} :: 0 <= k < |holes| ==> HoleFree(holes[k], vecs, size))
    && forall j, k {:trigger HolesApart(holes[j], holes[k])} :: 0 <= j < k < |holes| ==> HolesApart(holes[j], holes[k])
  }

  /** Holes are forgotten when the storage is empty. */
  ghost predicate Layout(vecs: seq<StupidVec>, holes: seq<Hole>, size: nat) {
    VecsOk(vecs, size) && (size > 0 ==> HolesOk(holes, vecs, size))
  }

  /** The holes with the old range of a vector added. */
  function WithOldRange(holes: seq<Hole>, v: StupidVec): seq<Hole> {
    if v.alloc > 0 then holes + [Hole(v.alloc, v.ptr)] else holes
  }

  function Without(holes: seq<Hole>, k: nat): seq<Hole>
    requires k < |holes|
  {
    holes[..k] + holes[k + 1..]
  }

  /** Vector `n` without a range; its old range becomes a hole. */
  lemma GivesUpRange(vecs: seq<StupidVec>, holes: seq<Hole>, size: nat, n: nat)
    requires VecsOk(vecs, size) && HolesOk(holes, vecs, size) && n < |vecs|
    ensures var bare := vecs[n := StupidVec(0, 0, 0)];
      VecsOk(bare, size) && HolesOk(WithOldRange(holes, vecs[n]), bare, size)
  {
    var v := vecs[n];
    var bare, more := vecs[n := StupidVec(0, 0, 0)], WithOldRange(holes, v);
    forall k | 0 <= k < |more|
      ensures HoleFree(more[k], bare, size)
    {
      if k < |holes| {
        assert HoleFree(holes[k], vecs, size);
      } else {
        assert VecFits(vecs[n], size);
        forall i | 0 <= i < |bare|
          ensures Apart(v.ptr, v.alloc, bare[i].ptr, bare[i].alloc)
        {
          if i < n {
            assert VecsApart(vecs[i], vecs[n]);
          } else if i > n {
            assert VecsApart(vecs[n], vecs[i]);
          }
        }
      }
    }
    forall j, k | 0 <= j < k < |more|
      ensures HolesApart(more[j], more[k])
    {
      if k == |holes| {
        assert HoleFree(holes[j], vecs, size);
      } else {
        assert HolesApart(holes[j], holes[k]);
      }
    }
    forall i | 0 <= i < |bare|
      ensures VecFits(bare[i], size)
    {
      assert VecFits(vecs[i], size);
    }
    forall i, j | 0 <= i < j < |bare|
      ensures VecsApart(bare[i], bare[j])
    {
      assert VecsApart(vecs[i], vecs[j]);
    }
  }

  /** A vector without a range takes a hole. */
  lemma TakesHole(vecs: seq<StupidVec>, holes: seq<Hole>, size: nat, n: nat, k: nat, length: nat)
    requires VecsOk(vecs, size) && HolesOk(holes, vecs, size) && n < |vecs| && vecs[n].alloc == 0 && k < |holes|
    requires length <= holes[k].size <= MAX_LENGTH
    ensures Layout(vecs[n := StupidVec(holes[k].pos, length, holes[k].size)], Without(holes, k), size)
  {
    var h := holes[k];
    var placed, rest := vecs[n := StupidVec(h.pos, length, h.size)], Without(holes, k);
    assert HoleFree(h, vecs, size);
    forall i | 0 <= i < |rest|
      ensures HoleFree(rest[i], placed, size)
    {
      var j := if i < k then i else i + 1;
      assert rest[i] == holes[j] && HoleFree(holes[j], vecs, size);
      assert HolesApart(holes[if j < k then j else k], holes[if j < k then k else j]);
    }
    forall i, j | 0 <= i < j < |rest|
      ensures HolesApart(rest[i], rest[j])
    {
      assert HolesApart(holes[if i < k then i else i + 1], holes[if j < k then j else j + 1]);
    }
    PlacedApart(vecs, size, n, placed[n]);
  }

  /** A range that keeps apart from all others may be given to a vector without one. */
  lemma PlacedApart(vecs: seq<StupidVec>, size: nat, n: nat, v: StupidVec)
    requires VecsOk(vecs, size) && n < |vecs| && vecs[n].alloc == 0 && VecFits(v, size)
    requires forall i :: 0 <= i < |vecs| ==> Apart(v.ptr, v.alloc, vecs[i].ptr, vecs[i].alloc)
    ensures VecsOk(vecs[n := v], size)
  {
    var placed := vecs[n := v];
    forall i, j | 0 <= i < j < |placed|
      ensures VecsApart(placed[i], placed[j])
    {
      if i != n && j != n {
        assert VecsApart(vecs[i], vecs[j]);
      }
    }
  }

  /** A vector without a range is placed at the end of the storage. */
  lemma TakesEnd(vecs: seq<StupidVec>, holes: seq<Hole>, size: nat, n: nat, length: nat, alloc: nat)
    requires VecsOk(vecs, size) && HolesOk(holes, vecs, size) && n < |vecs| && vecs[n].alloc == 0
    requires 0 < length <= alloc <= MAX_LENGTH
    ensures Layout(vecs[n := StupidVec(size, length, alloc)], holes, size + alloc)
  {
    var placed := vecs[n := StupidVec(size, length, alloc)];
    forall i | 0 <= i < |vecs|
      ensures VecFits(vecs[i], size + alloc) && Apart(size, alloc, vecs[i].ptr, vecs[i].alloc)
    {
      assert VecFits(vecs[i], size);
    }
    PlacedApart(vecs, size + alloc, n, placed[n]);
    forall k | 0 <= k < |holes|
      ensures HoleFree(holes[k], placed, size + alloc)
    {
      assert HoleFree(holes[k], vecs, size);
    }
  }

  /** A vector that fits its range only changes its length. */
  lemma ChangesLength(vecs: seq<StupidVec>, holes: seq<Hole>, size: nat, n: nat, length: nat)
    requires Layout(vecs, holes, size) && n < |vecs| && length <= vecs[n].alloc
    ensures Layout(vecs[n := vecs[n].(length := length)], holes, size)
  {
    var changed := vecs[n := vecs[n].(length := length)];
    forall i | 0 <= i < |changed|
      ensures VecFits(changed[i], size)
    {
      assert VecFits(vecs[i], size);
    }
    forall i, j | 0 <= i < j < |changed|
      ensures VecsApart(changed[i], changed[j])
    {
      assert VecsApart(vecs[i], vecs[j]);
    }
    if size > 0 {
      forall k | 0 <= k < |holes|
        ensures HoleFree(holes[k], changed, size)
      {
        assert HoleFree(holes[k], vecs, size);
      }
    }
  }

  /** A new vector has no range yet. */
  lemma NewVector(vecs: seq<StupidVec>, holes: seq<Hole>, size: nat)
    requires Layout(vecs, holes, size)
    ensures Layout(vecs + [StupidVec(0, 0, 0)], holes, size)
  {
    var more := vecs + [StupidVec(0, 0, 0)];
    forall i, j | 0 <= i < j < |more|
      ensures VecsApart(more[i], more[j])
    {
      if j < |vecs| {
        assert VecsApart(vecs[i], vecs[j]);
      }
    }
    if size > 0 {
      forall k | 0 <= k < |holes|
        ensures HoleFree(holes[k], more, size)
      {
        assert HoleFree(holes[k], vecs, size);
      }
    }
  }

  // ---- Ranges and holes fill the storage ----

  /** The block's size once it reaches to the end of the range. */
  function NewSize(size: nat, v: StupidVec): nat {
    if v.ptr + v.alloc > size then v.ptr + v.alloc else size
  }

  ghost function TotalAlloc(vecs: seq<StupidVec>): nat {
    if vecs == [] then 0 else TotalAlloc(vecs[..|vecs| - 1]) + vecs[|vecs| - 1].alloc
  }

  ghost function TotalHoles(holes: seq<Hole>): nat {
    if holes == [] then 0 else TotalHoles(holes[..|holes| - 1]) + holes[|holes| - 1].size
  }

  /** No byte is lost: each one in use belongs to a vector or to a hole. */
  ghost predicate Filled(vecs: seq<StupidVec>, holes: seq<Hole>, size: nat) {
    TotalAlloc(vecs) + (if size == 0 then 0 else TotalHoles(holes)) == size
  }

  lemma {:induction false} TotalAllocUpdated(vecs: seq<StupidVec>, n: nat, v: StupidVec)
    requires n < |vecs|
    ensures TotalAlloc(vecs[n := v]) + vecs[n].alloc == TotalAlloc(vecs) + v.alloc
    decreases |vecs|
  {
    var last := |vecs| - 1;
    if n == last {
      assert vecs[n := v][..last] == vecs[..last];
    } else {
      assert vecs[n := v][..last] == vecs[..last][n := v];
      TotalAllocUpdated(vecs[..last], n, v);
    }
  }

  lemma TotalAllocAdded(vecs: seq<StupidVec>, v: StupidVec)
    ensures TotalAlloc(vecs + [v]) == TotalAlloc(vecs) + v.alloc
  {
    assert (vecs + [v])[..|vecs|] == vecs;
  }

  lemma TotalHolesAdded(holes: seq<Hole>, h: Hole)
    ensures TotalHoles(holes + [h]) == TotalHoles(holes) + h.size
  {
    assert (holes + [h])[..|holes|] == holes;
  }

  lemma {:induction false} TotalHolesWithout(holes: seq<Hole>, k: nat)
    requires k < |holes|
    ensures TotalHoles(Without(holes, k)) + holes[k].size == TotalHoles(holes)
    decreases |holes|
  {
    var last := |holes| - 1;
    if k == last {
      assert Without(holes, k) == holes[..last];
    } else {
      assert Without(holes, k) == Without(holes[..last], k) + [holes[last]];
      TotalHolesAdded(Without(holes[..last], k), holes[last]);
      TotalHolesWithout(holes[..last], k);
    }
  }

  // ---- Finding a place ----

  /** The holes to choose from: those there are, none if the storage is empty, and the range
      that the vector gives up. */
  ghost function Offered(holes: seq<Hole>, size: nat, v: StupidVec): multiset<Hole> {
    (if size == 0 then multiset{} else multiset(holes)) + if v.alloc > 0 then multiset{Hole(v.alloc, v.ptr)} else multiset{}
  }

  ghost predicate OfSize(offered: multiset<Hole>, alloc: nat) {
    exists pos :: Hole(alloc, pos) in offered
  }

  /** A vector `v` that has outgrown its range is now at `v'`: in a hole of exactly the size it
      needs, which is used up, if there is one, and otherwise at the end of the storage. */
  ghost predicate Relocated(holes: seq<Hole>, size: nat, v: StupidVec, length: nat, holes': seq<Hole>, v': StupidVec) {
    var offered, alloc := Offered(holes, size, v), AllocFor(length);
    && v'.alloc == alloc
    && (OfSize(offered, alloc) ==>
      Hole(alloc, v'.ptr) in offered && multiset(holes') == offered - multiset{Hole(alloc, v'.ptr)})
    && (!OfSize(offered, alloc) ==> v'.ptr == size && multiset(holes') == offered)
  }

  /** It only moves if it has outgrown its range. */
  ghost predicate Settled(holes: seq<Hole>, size: nat, v: StupidVec, length: nat, holes': seq<Hole>, v': StupidVec) {
    if length > v.alloc then Relocated(holes, size, v, length, holes', v')
    else v'.ptr == v.ptr && v'.alloc == v.alloc && holes' == holes
  }

  /** The holes once the range has been given up, and what they fill. */
  lemma GivenUpFilled(vecs: seq<StupidVec>, kept: seq<Hole>, holes: seq<Hole>, size: nat, n: nat)
    requires n < |vecs| && Filled(vecs, holes, size) && VecFits(vecs[n], size)
    requires kept == if size == 0 then [] else holes
    ensures multiset(WithOldRange(kept, vecs[n])) == Offered(holes, size, vecs[n])
    ensures TotalAlloc(vecs[n := StupidVec(0, 0, 0)]) + TotalHoles(WithOldRange(kept, vecs[n])) == size
  {
    TotalAllocUpdated(vecs, n, StupidVec(0, 0, 0));
    TotalHolesAdded(kept, Hole(vecs[n].alloc, vecs[n].ptr));
  }

  lemma HoleTakenFilled(vecs: seq<StupidVec>, holes: seq<Hole>, size: nat, n: nat, k: nat, v: StupidVec)
    requires n < |vecs| && vecs[n].alloc == 0 && k < |holes| && holes[k].size == v.alloc && v.ptr + v.alloc <= size
    requires TotalAlloc(vecs) + TotalHoles(holes) == size
    ensures Filled(vecs[n := v], Without(holes, k), NewSize(size, v))
  {
    TotalAllocUpdated(vecs, n, v);
    TotalHolesWithout(holes, k);
  }

  lemma EndTakenFilled(vecs: seq<StupidVec>, holes: seq<Hole>, size: nat, n: nat, v: StupidVec)
    requires n < |vecs| && vecs[n].alloc == 0 && v.ptr == size && v.alloc > 0
    requires TotalAlloc(vecs) + TotalHoles(holes) == size
    ensures Filled(vecs[n := v], holes, NewSize(size, v))
  {
    TotalAllocUpdated(vecs, n, v);
  }

  lemma WithoutIsLess(holes: seq<Hole>, k: nat)
    requires k < |holes|
    ensures multiset(Without(holes, k)) == multiset(holes) - multiset{holes[k]}
  {
    assert holes == holes[..k] + [holes[k]] + holes[k + 1..];
  }

  /** The choice of a hole. */
  lemma HoleTaken(holes: seq<Hole>, size: nat, v: StupidVec, length: nat, more: seq<Hole>, k: nat, v': StupidVec)
    requires multiset(more) == Offered(holes, size, v) && k < |more|
    requires more[k].size == v'.alloc == AllocFor(length) && v'.ptr == more[k].pos
    ensures Relocated(holes, size, v, length, Without(more, k), v')
  {
    WithoutIsLess(more, k);
    assert more[k] == Hole(AllocFor(length), v'.ptr) && more[k] in multiset(more);
  }

  lemma NoHoleFits(holes: seq<Hole>, size: nat, v: StupidVec, length: nat, more: seq<Hole>, v': StupidVec)
    requires multiset(more) == Offered(holes, size, v) && v'.alloc == AllocFor(length) && v'.ptr == size
    requires forall k :: 0 <= k < |more| ==> more[k].size != AllocFor(length)
    ensures Relocated(holes, size, v, length, more, v')
  {
    assert forall h :: h in multiset(more) ==> h in more && h.size != AllocFor(length);
  }

  /** The vectors and holes lie apart and fill the storage. */
  ghost predicate Laid(vecs: seq<StupidVec>, holes: seq<Hole>, size: nat) {
    Layout(vecs, holes, size) && Filled(vecs, holes, size)
  }

  /** Vector `n` has room for its new length, once the storage reaches to the end of its range. */
  ghost predicate PlacedWell(vecs: seq<StupidVec>, holes: seq<Hole>, size: nat, n: nat, length: nat) {
    && n < |vecs| && length <= vecs[n].alloc
    && Laid(vecs[n := vecs[n].(length := length)], holes, NewSize(size, vecs[n]))
  }

  lemma SetTwice<T>(s: seq<T>, n: nat, a: T, b: T, c: T)
    requires n < |s|
    ensures s[n := a][n := c] == s[n := b][n := c]
  {
  }

  lemma HoleGiven(bare: seq<StupidVec>, more: seq<Hole>, size: nat, n: nat, k: nat, w: StupidVec)
    requires VecsOk(bare, size) && HolesOk(more, bare, size) && TotalAlloc(bare) + TotalHoles(more) == size
    requires n < |bare| && bare[n].alloc == 0 && k < |more|
    requires w.length <= w.alloc == more[k].size <= MAX_LENGTH && w.ptr == more[k].pos
    ensures Laid(bare[n := w], Without(more, k), NewSize(size, w))
  {
    assert HoleFree(more[k], bare, size);
    TakesHole(bare, more, size, n, k, w.length);
    HoleTakenFilled(bare, more, size, n, k, w);
    assert w == StupidVec(more[k].pos, w.length, more[k].size) && NewSize(size, w) == size;
  }

  /** A vector takes one of the holes it may choose from. */
  lemma PlacedInHole(vecs: seq<StupidVec>, holes: seq<Hole>, size: nat, n: nat, length: nat, more: seq<Hole>, k: nat,
                     v: StupidVec)
    requires Laid(vecs, holes, size) && n < |vecs| && length <= MAX_LENGTH && k < |more|
    requires more == WithOldRange(if size == 0 then [] else holes, vecs[n])
    requires more[k].size == AllocFor(length) == v.alloc && v.ptr == more[k].pos
    ensures Relocated(holes, size, vecs[n], length, Without(more, k), v)
    ensures PlacedWell(vecs[n := v], Without(more, k), size, n, length)
  {
    hide VecsOk, HolesOk, Laid, TotalAlloc, TotalHoles, AllocFor, Relocated, WithOldRange, Offered, Without;
    var none, w := StupidVec(0, 0, 0), v.(length := length);
    OfferedRoom(vecs, holes, size, n, length, more);
    HoleTaken(holes, size, vecs[n], length, more, k, v);
    HoleGiven(vecs[n := none], more, size, n, k, w);
    SetTwice(vecs, n, none, v, w);
  }

  /** No hole has the right size. */
  lemma PlacedAtEnd(vecs: seq<StupidVec>, holes: seq<Hole>, size: nat, n: nat, length: nat, more: seq<Hole>,
                    v: StupidVec)
    requires Laid(vecs, holes, size) && n < |vecs| && 0 < length <= MAX_LENGTH
    requires more == WithOldRange(if size == 0 then [] else holes, vecs[n])
    requires v.alloc == AllocFor(length) && v.ptr == size
    requires forall k :: 0 <= k < |more| ==> more[k].size != AllocFor(length)
    ensures Relocated(holes, size, vecs[n], length, more, v) && PlacedWell(vecs[n := v], more, size, n, length)
  {
    var bare, w := vecs[n := StupidVec(0, 0, 0)], v.(length := length);
    OfferedRoom(vecs, holes, size, n, length, more);
    NoHoleFits(holes, size, vecs[n], length, more, v);
    TakesEnd(bare, more, size, n, length, v.alloc);
    EndTakenFilled(bare, more, size, n, w);
    SetTwice(vecs, n, StupidVec(0, 0, 0), v, w);
  }

  /** The holes to choose from, and the rest of the vectors, fill the storage. */
  lemma OfferedRoom(vecs: seq<StupidVec>, holes: seq<Hole>, size: nat, n: nat, length: nat, more: seq<Hole>)
    requires Laid(vecs, holes, size) && n < |vecs| && length <= MAX_LENGTH
    requires more == WithOldRange(if size == 0 then [] else holes, vecs[n])
    ensures multiset(more) == Offered(holes, size, vecs[n])
    ensures length <= AllocFor(length) <= MAX_LENGTH
    ensures var bare := vecs[n := StupidVec(0, 0, 0)];
      VecsOk(bare, size) && HolesOk(more, bare, size) && TotalAlloc(bare) + TotalHoles(more) == size
  {
    var kept := if size == 0 then [] else holes;
    assert VecFits(vecs[n], size);
    AllocIsLeast(length);
    GivesUpRange(vecs, kept, size, n);
    GivenUpFilled(vecs, kept, holes, size, n);
  }

  /** The new length is noted. */
  lemma LengthChanged(vecs: seq<StupidVec>, holes: seq<Hole>, size: nat, n: nat, length: nat, vecs': seq<StupidVec>,
                      holes': seq<Hole>)
    requires Laid(vecs, holes, size) && n < |vecs|
    requires if length > vecs[n].alloc then PlacedWell(vecs', holes', size, n, length) else vecs' == vecs && holes' == holes
    ensures Laid(vecs'[n := vecs'[n].(length := length)], holes', if length > 0 then NewSize(size, vecs'[n]) else size)
  {
    if length <= vecs[n].alloc {
      assert VecFits(vecs[n], size);
      ChangesLength(vecs, holes, size, n, length);
      TotalAllocUpdated(vecs, n, vecs[n].(length := length));
    }
  }

  lemma VectorAdded(vecs: seq<StupidVec>, holes: seq<Hole>, size: nat)
    requires Laid(vecs, holes, size)
    ensures Laid(vecs + [StupidVec(0, 0, 0)], holes, size)
  {
    NewVector(vecs, holes, size);
    TotalAllocAdded(vecs, StupidVec(0, 0, 0));
  }
}
