/** make_string of nandcombinator.cc: a 32-bit cache that is emptied in 8-bit characters for
    the search keys and in 6-bit characters for the log. */
module Packer {
  import opened Bits
  import opened BitStream
  import opened Codec

  function Glyph(outBits: nat, cset: string, digit: nat): char
    requires digit < Pow2(outBits) && (outBits == 8 || (outBits == 6 && |cset| == 64))
  {
    assert Pow2(6) == 64 && Pow2(8) == 256;
    if outBits == 8 then digit as char else cset[digit]
  }

  /** `s` holds the digits of the stream. */
  ghost predicate Holds(s: string, outBits: nat, cset: string, bits: seq<bool>)
    requires outBits == 8 || (outBits == 6 && |cset| == 64)
  {
    && |s| == |Pack(bits, outBits)|
    && (PackBound(bits, outBits);
        forall i :: 0 <= i < |s| ==> s[i] == Glyph(outBits, cset, Pack(bits, outBits)[i]))
  }

  /** At 6 bits this is what the PHP encoder writes. */
  lemma HoldsIsEncodes(s: string, cset: string, bits: seq<bool>)
    requires |cset| == 64 && Holds(s, 6, cset, bits)
    ensures Encodes(cset, s, bits)
  {
    PackBound(bits, 6);
  }

  lemma SamePrograms(s: string, t: string, bits: seq<bool>)
    requires |BASE64_CSET| == 64 && Holds(s, 6, BASE64_CSET, bits) && Encodes(BASE64_CSET, t, bits)
    ensures s == t
  {
    HoldsIsEncodes(s, BASE64_CSET, bits);
    Base64Alphabet();
    SpellingIsUnique(BASE64_CSET, s, Pack(bits, 6), t, Pack(bits, 6));
  }

  /** Two 8-bit keys of equally long streams are the same only for the same stream. */
  lemma BytesInjective(s: string, cset: string, bits: seq<bool>, t: string, bits': seq<bool>)
    requires Holds(s, 8, cset, bits) && Holds(t, 8, cset, bits') && |bits| == |bits'|
    ensures s == t <==> bits == bits'
  {
    PackBound(bits, 8);
    PackBound(bits', 8);
    var a, b := Pack(bits, 8), Pack(bits', 8);
    if s == t {
      forall i | 0 <= i < |a|
        ensures a[i] == b[i]
      {
        assert Pow2(8) == 256;
        assert Glyph(8, cset, a[i]) == Glyph(8, cset, b[i]);
      }
      PackInjective(bits, bits', 8);
    }
    if bits == bits' {
      assert forall i :: 0 <= i < |s| ==> s[i] == t[i];
    }
  }

  class BitPacker {
    const outBits: nat
    const wordBits: nat
    const cset: string
    var binary: string
    var cache: nat
    var cachedBits: nat
    ghost var stream: seq<bool>

    ghost predicate Consistent()
      reads this
    {
      && (outBits == 8 || (outBits == 6 && |cset| == 64)) && wordBits >= 32
      && cachedBits <= |stream| && cachedBits <= wordBits
      && var whole := |stream| - cachedBits;
         Whole(whole, outBits) && cache == Num(stream[whole..]) && Holds(binary, outBits, cset, stream[..whole])
    }

    ghost predicate Valid()
      reads this
    {
      Consistent() && cachedBits < outBits
    }

    constructor (outBits: nat, cset: string)
      requires outBits == 8 || (outBits == 6 && |cset| == 64)
      ensures Valid() && stream == [] && this.outBits == outBits && this.cset == cset && this.wordBits == 32
    {
      this.outBits, this.cset, wordBits := outBits, cset, 32;
      binary, cache, cachedBits, stream := "", 0, 0, [];
    }

    /** The cache must have room for the field. */
    method AddBits(value: nat, n: nat)
      requires Valid() && value < Pow2(n) && cachedBits + n <= wordBits
      modifies this
      ensures Valid() && stream == old(stream) + BitsOf(value, n)
    {
      Append(value, n);
      while cachedBits >= outBits
        invariant Consistent() && stream == old(stream) + BitsOf(value, n)
        decreases cachedBits
      {
        Emit();
      }
    }

    /** The shifted value is a machine word; what does not fit it would be lost. */
    method Append(value: nat, n: nat)
      requires Consistent() && value < Pow2(n) && cachedBits + n <= wordBits
      modifies this`cache, this`cachedBits, this`stream
      ensures Consistent() && stream == old(stream) + BitsOf(value, n)
    {
      ghost var whole := |stream| - cachedBits;
      AppendField(stream[whole..], value, n);
      AppendTail(stream, BitsOf(value, n), whole);
      ShiftFits(value, n, cachedBits, wordBits);
      cache := Or(cache, Low(Shl(value, cachedBits), wordBits));
      cachedBits := cachedBits + n;
      stream := stream + BitsOf(value, n);
    }

    method Emit()
      requires Consistent() && cachedBits >= outBits
      modifies this`cache, this`cachedBits, this`binary
      ensures Consistent() && cachedBits == old(cachedBits) - outBits
    {
      ghost var whole := |stream| - cachedBits;
      EmitDigit(stream, whole, outBits);
      PackBound(stream[..whole], outBits);
      PackBound(stream[..whole + outBits], outBits);
      binary := binary + [Glyph(outBits, cset, Low(cache, outBits))];
      cache := Shr(cache, outBits);
      cachedBits := cachedBits - outBits;
    }

    /** What make_string does after its functor has added all fields. */
    method Finish() returns (result: string)
      requires Valid()
      modifies this
      ensures Holds(result, outBits, cset, old(stream))
    {
      if cachedBits != 0 {
        Remainder(cachedBits, outBits);
        var fill := outBits - cachedBits % outBits;
        assert Whole(|stream| + fill, outBits);
        PackFill(stream, outBits, fill);
        BitsOfZero(fill);
        AddBits(0, fill);
        WholeStream(|stream|, cachedBits, outBits);
      }
      assert stream[..|stream|] == stream;
      result := binary;
    }
  }

  lemma Remainder(n: nat, k: nat)
    requires n < k
    ensures n % k == n
  {
  }

  lemma ShiftFits(value: nat, n: nat, k: nat, width: nat)
    requires value < Pow2(n) && k + n <= width
    ensures Low(Shl(value, k), width) == Shl(value, k)
  {
    ShiftBound(value, n, k);
    Pow2Monotone(k + n, width);
    LowIsIdentity(Shl(value, k), width);
  }

  lemma ShiftBound(value: nat, n: nat, k: nat)
    requires value < Pow2(n)
    ensures Shl(value, k) < Pow2(k + n)
  {
    if k > 0 {
      ShiftBound(value, n, k - 1);
    }
  }
}
