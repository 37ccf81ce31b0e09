/** The bit-field strings of backend/base64.php and of make_string in nandcombinator.cc: fields of any
    width, least significant bit first, cut into 6-bit characters without padding marks. */
module Codec {
  import opened Bits
  import opened BitStream

  const BASE64_CSET: string :=
    "ABCDEFGHIJKLM" + "NOPQRSTUVWXYZ" + "abcdefghijklm" + "nopqrstuvwxyz" + "0123456789" + "+/"

  datatype Field = Field(value: nat, width: nat)

  ghost predicate Fits(f: Field) {
    f.value < Pow2(f.width)
  }

  ghost predicate AllFit(fields: seq<Field>) {
    forall i :: 0 <= i < |fields| ==> Fits(fields[i])
  }

  /** The fields one after the other, each from its least significant bit. */
  function FieldBits(fields: seq<Field>): seq<bool> {
    if fields == [] then [] else BitsOf(fields[0].value, fields[0].width) + FieldBits(fields[1..])
  }

  lemma {:induction false} FieldBitsAppend(a: seq<Field>, b: seq<Field>)
    ensures FieldBits(a + b) == FieldBits(a) + FieldBits(b)
  {
    if a == [] {
      assert a + b == b;
    } else {
      FieldBitsAppend(a[1..], b);
      assert (a + b)[1..] == a[1..] + b;
      Reassociate(BitsOf(a[0].value, a[0].width), FieldBits(a[1..]), FieldBits(b));
    }
  }

  // ---- The alphabet ----

  /** 64 characters without repetition. */
  ghost predicate Alphabet(cset: string) {
    |cset| == 64 && forall v, w :: 0 <= v < w < 64 ==> cset[v] != cset[w]
  }

  function CharRun(first: char, n: nat): (s: string)
    requires first as int + n <= 256
    ensures |s| == n && forall i :: 0 <= i < n ==> s[i] as int == first as int + i
  {
    seq(n, i requires 0 <= i < n => (first as int + i) as char)
  }

  lemma AlphabetRuns()
    ensures BASE64_CSET == CharRun('A', 26) + CharRun('a', 26) + CharRun('0', 10) + "+/"
  {
    assert "ABCDEFGHIJKLM" == CharRun('A', 13);
    assert "NOPQRSTUVWXYZ" == CharRun('N', 13);
    assert "abcdefghijklm" == CharRun('a', 13);
    assert "nopqrstuvwxyz" == CharRun('n', 13);
    assert "0123456789" == CharRun('0', 10);
    assert CharRun('A', 13) + CharRun('N', 13) == CharRun('A', 26);
    assert CharRun('a', 13) + CharRun('n', 13) == CharRun('a', 26);
  }

  lemma Base64Alphabet()
    ensures Alphabet(BASE64_CSET)
  {
    AlphabetRuns();
  }

  /** `c` is character number `v` of the alphabet. */
  predicate Stands(cset: string, c: char, v: nat) {
    v < |cset| && cset[v] == c
  }

  ghost predicate Spells(cset: string, s: string, digits: seq<nat>) {
    |s| == |digits| && forall i :: 0 <= i < |s| ==> Stands(cset, s[i], digits[i])
  }

  /** `s` is the string for a stream of bits. */
  ghost predicate Encodes(cset: string, s: string, bits: seq<bool>) {
    Spells(cset, s, Pack(bits, 6))
  }

  lemma SpellingIsUnique(cset: string, s: string, digits: seq<nat>, t: string, digits': seq<nat>)
    requires Alphabet(cset) && Spells(cset, s, digits) && Spells(cset, t, digits')
    ensures s == t <==> digits == digits'
  {
    if s == t {
      forall i | 0 <= i < |s|
        ensures digits[i] == digits'[i]
      {
        assert Stands(cset, s[i], digits[i]) && Stands(cset, t[i], digits'[i]);
      }
    }
    if digits == digits' {
      forall i | 0 <= i < |s|
        ensures s[i] == t[i]
      {
        assert Stands(cset, s[i], digits[i]) && Stands(cset, t[i], digits'[i]);
      }
    }
  }

  /** Equally long streams have the same string only if they are the same; and a stream has
      one string, whichever program wrote it. */
  lemma EncodingIsInjective(cset: string, s: string, bits: seq<bool>, t: string, bits': seq<bool>)
    requires Alphabet(cset) && Encodes(cset, s, bits) && Encodes(cset, t, bits') && |bits| == |bits'|
    ensures s == t <==> bits == bits'
  {
    SpellingIsUnique(cset, s, Pack(bits, 6), t, Pack(bits', 6));
    if s == t {
      PackInjective(bits, bits', 6);
    }
  }

  // ---- The cache of an encoder ----

  lemma AppendTail(stream: seq<bool>, field: seq<bool>, whole: nat)
    requires whole <= |stream|
    ensures (stream + field)[whole..] == stream[whole..] + field && (stream + field)[..whole] == stream[..whole]
  {
  }

  lemma WholeStream(n: nat, rest: nat, k: nat)
    requires k > 0 && rest < k && rest <= n && Whole(n - rest, k) && Whole(n, k)
    ensures rest == 0
    decreases n
  {
    if n >= 2 * k {
      WholeStream(n - k, rest, k);
    }
  }

  /** Or-ing a shifted field into the cache appends its bits. */
  lemma AppendField(pending: seq<bool>, value: nat, n: nat)
    requires value < Pow2(n)
    ensures Or(Num(pending), Shl(value, |pending|)) == Num(pending + BitsOf(value, n))
  {
    NumBound(pending);
    OrDisjoint(Num(pending), value, |pending|);
    NumAppend(pending, BitsOf(value, n));
    NumOfBits(value, n);
    LowIsIdentity(value, n);
  }

  /** Moving the low digit of the cache to the output. */
  lemma EmitDigit(stream: seq<bool>, whole: nat, k: nat)
    requires k > 0 && whole + k <= |stream| && Whole(whole, k)
    ensures var digit := Low(Num(stream[whole..]), k);
      digit < Pow2(k) && Pack(stream[..whole + k], k) == Pack(stream[..whole], k) + [digit]
    ensures Shr(Num(stream[whole..]), k) == Num(stream[whole + k..])
    ensures Whole(whole + k, k) && Pow2(6) == 64 && Pow2(8) == 256
  {
    var pending, group := stream[whole..], stream[whole..whole + k];
    assert pending[..k] == group && pending[k..] == stream[whole + k..];
    NumSplit(pending, k);
    NumBound(group);
    assert stream[..whole + k] == stream[..whole] + group;
    PackAppend(stream[..whole], group, k);
    assert Pack(group, k) == [Num(group)];
  }

  // ---- Round trip ----

  /** What a decoder returns that reads fields of these widths from a stream. */
  function ReadFields(bits: seq<bool>, fields: seq<Field>): seq<nat>
    requires |FieldBits(fields)| <= |bits|
    decreases |fields|
  {
    if fields == [] then []
    else [Num(bits[..fields[0].width])] + ReadFields(bits[fields[0].width..], fields[1..])
  }

  function Values(fields: seq<Field>): (values: seq<nat>)
    ensures |values| == |fields|
  {
    seq(|fields|, i requires 0 <= i < |fields| => fields[i].value)
  }

  lemma {:induction false} ReadsBack(fields: seq<Field>, tail: seq<bool>)
    requires AllFit(fields)
    ensures ReadFields(FieldBits(fields) + tail, fields) == Values(fields)
    decreases |fields|
  {
    if fields != [] {
      var f, rest := fields[0], fields[1..];
      AllFitRest(fields);
      NumOfBits(f.value, f.width);
      LowIsIdentity(f.value, f.width);
      FirstField(fields, tail);
      ReadsBack(rest, tail);
      assert Values(fields) == [f.value] + Values(rest);
    }
  }

  lemma AllFitRest(fields: seq<Field>)
    requires fields != [] && AllFit(fields)
    ensures Fits(fields[0]) && AllFit(fields[1..])
  {
    forall i | 0 <= i < |fields| - 1
      ensures Fits(fields[1..][i])
    {
      assert Fits(fields[i + 1]);
    }
  }

  lemma FirstField(fields: seq<Field>, tail: seq<bool>)
    requires fields != []
    ensures var bits := FieldBits(fields) + tail;
      && |bits| >= fields[0].width
      && bits[..fields[0].width] == BitsOf(fields[0].value, fields[0].width)
      && bits[fields[0].width..] == FieldBits(fields[1..]) + tail
  {
    var first, others := BitsOf(fields[0].value, fields[0].width), FieldBits(fields[1..]);
    Reassociate(first, others, tail);
    Concatenated(first, others + tail);
  }

  lemma NextField(fields: seq<Field>, i: nat)
    requires i < |fields|
    ensures FieldBits(fields[..i + 1]) == FieldBits(fields[..i]) + BitsOf(fields[i].value, fields[i].width)
  {
    FieldBitsAppend(fields[..i], [fields[i]]);
    assert fields[..i + 1] == fields[..i] + [fields[i]];
    assert FieldBits([fields[i]]) == BitsOf(fields[i].value, fields[i].width);
  }

  lemma WholeStreamReadsBack(fields: seq<Field>)
    requires AllFit(fields)
    ensures var all := Unpack(Pack(FieldBits(fields), 6), 6);
      |FieldBits(fields)| <= |all| && ReadFields(all, fields) == Values(fields)
  {
    var bits := FieldBits(fields);
    UnpackPack(bits, 6);
    var all := Unpack(Pack(bits, 6), 6);
    assert all == bits + all[|bits|..];
    ReadsBack(fields, all[|bits|..]);
  }
}
