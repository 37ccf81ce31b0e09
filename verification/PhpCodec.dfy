/** The encoder and the decoder of backend/base64.php, whose caches are signed 64-bit integers:
    fields of up to 58 bits are carried through unharmed, longer ones are not. */
module PhpCodec {
  import opened Bits
  import opened BitStream
  import opened Codec
  import opened Integers

  /** The widest field that the caches carry. */
  const MAX_WIDTH: nat := 58

  /** A cache that holds these bits, all of them below the sign. */
  ghost predicate Caches(word: Word, pending: seq<bool>) {
    |pending| < WORD_SIZE && word == pending + Zeros(WORD_SIZE - |pending|)
  }

  /** `w & ((1 << n) - 1)` */
  function Masked(w: Word, n: nat): nat {
    Num(if n <= WORD_SIZE then w[..n] else w)
  }

  // ---- The encoder ----

  /** What an encoder remembers. */
  datatype Encoder = Encoder(data: string, word: Word, bits: nat)

  function Joined(word: Word, value: nat, bits: nat): Word {
    BitOr(word, ShiftLeft(FromNat(value), bits))
  }

  function Digit(word: Word): (digit: nat)
    ensures digit < 64
  {
    assert Pow2(6) == 64;
    NumBound(word[..6]);
    Num(word[..6])
  }

  function EmitOne(e: Encoder, cset: string): Encoder
    requires |cset| == 64 && e.bits >= 6
  {
    Encoder(e.data + [cset[Digit(e.word)]], ShiftRight(e.word, 6), e.bits - 6)
  }

  /** The loop of Put. */
  function Drained(e: Encoder, cset: string): Encoder
    requires |cset| == 64
    decreases e.bits
  {
    if e.bits >= 6 then Drained(EmitOne(e, cset), cset) else e
  }

  function PutField(e: Encoder, cset: string, value: nat, n: nat): Encoder
    requires |cset| == 64
  {
    Drained(Encoder(e.data, Joined(e.word, value, e.bits), e.bits + n), cset)
  }

  /** How many bits are missing to the next whole group. */
  function Missing(bits: nat): (fill: nat)
    ensures bits < 6 ==> fill == 6 - bits
  {
    6 - bits % 6
  }

  function Finished(e: Encoder, cset: string): Encoder
    requires |cset| == 64
  {
    if e.bits != 0 then PutField(e, cset, 0, Missing(e.bits)) else e
  }

  /** The encoder has written the whole groups of the stream and keeps the rest. */
  ghost predicate Tracks(e: Encoder, cset: string, stream: seq<bool>) {
    && Alphabet(cset) && e.bits <= |stream|
    && var whole := |stream| - e.bits;
       Whole(whole, 6) && Caches(e.word, stream[whole..]) && Encodes(cset, e.data, stream[..whole])
  }

  /** As long as all bits are below the sign, or-ing loses nothing. */
  lemma JoinCaches(word: Word, pending: seq<bool>, value: nat, n: nat)
    requires Caches(word, pending) && value < Pow2(n) && |pending| + n < WORD_SIZE
    ensures Caches(Joined(word, value, |pending|), pending + BitsOf(value, n))
  {
    ShiftedNumber(value, n, |pending|);
    var all := pending + BitsOf(value, n);
    var joined, expected := Joined(word, value, |pending|), all + Zeros(WORD_SIZE - |all|);
    forall i | 0 <= i < WORD_SIZE
      ensures joined[i] == expected[i]
    {
    }
  }

  lemma JoinTracks(e: Encoder, cset: string, stream: seq<bool>, value: nat, n: nat)
    requires Tracks(e, cset, stream) && value < Pow2(n) && e.bits + n < WORD_SIZE
    ensures Tracks(Encoder(e.data, Joined(e.word, value, e.bits), e.bits + n), cset, stream + BitsOf(value, n))
  {
    var whole := |stream| - e.bits;
    JoinCaches(e.word, stream[whole..], value, n);
    AppendTail(stream, BitsOf(value, n), whole);
  }

  lemma ShiftCaches(word: Word, pending: seq<bool>, n: nat)
    requires Caches(word, pending) && n <= |pending|
    ensures word[..n] == pending[..n] && Caches(ShiftRight(word, n), pending[n..])
  {
    var rest := pending[n..];
    assert ShiftRight(word, n) == rest + Zeros(WORD_SIZE - |rest|);
  }

  lemma EmitTracks(e: Encoder, cset: string, stream: seq<bool>)
    requires Tracks(e, cset, stream) && e.bits >= 6
    ensures Tracks(EmitOne(e, cset), cset, stream)
  {
    var whole := |stream| - e.bits;
    ShiftCaches(e.word, stream[whole..], 6);
    var group := stream[whole..whole + 6];
    assert stream[whole..][..6] == group && stream[whole..][6..] == stream[whole + 6..];
    EmitSpells(e.data, cset, stream[..whole], group);
    assert stream[..whole + 6] == stream[..whole] + group;
    assert Whole(whole + 6, 6);
  }

  lemma EmitSpells(data: string, cset: string, written: seq<bool>, group: seq<bool>)
    requires Alphabet(cset) && Encodes(cset, data, written) && Whole(|written|, 6) && |group| == 6
    ensures Num(group) < 64 && Encodes(cset, data + [cset[Num(group)]], written + group)
  {
    NumBound(group);
    assert Pow2(6) == 64;
    PackAppend(written, group, 6);
    assert Pack(group, 6) == [Num(group)];
    assert Stands(cset, cset[Num(group)], Num(group));
  }

  lemma {:induction false} DrainTracks(e: Encoder, cset: string, stream: seq<bool>)
    requires Tracks(e, cset, stream)
    ensures Tracks(Drained(e, cset), cset, stream) && Drained(e, cset).bits < 6
    decreases e.bits
  {
    if e.bits >= 6 {
      EmitTracks(e, cset, stream);
      DrainTracks(EmitOne(e, cset), cset, stream);
    }
  }

  lemma PutTracks(e: Encoder, cset: string, stream: seq<bool>, value: nat, n: nat)
    requires Tracks(e, cset, stream) && e.bits < 6 && value < Pow2(n) && n <= MAX_WIDTH
    ensures Tracks(PutField(e, cset, value, n), cset, stream + BitsOf(value, n)) && PutField(e, cset, value, n).bits < 6
  {
    hide Tracks, Drained, Joined, BitsOf, Pow2;
    JoinTracks(e, cset, stream, value, n);
    DrainTracks(Encoder(e.data, Joined(e.word, value, e.bits), e.bits + n), cset, stream + BitsOf(value, n));
  }

  lemma FinishTracks(e: Encoder, cset: string, stream: seq<bool>)
    requires Tracks(e, cset, stream) && e.bits < 6
    ensures Encodes(cset, Finished(e, cset).data, stream)
  {
    if e.bits != 0 {
      var fill := Missing(e.bits);
      PutTracks(e, cset, stream, 0, fill);
      LastGroup(PutField(e, cset, 0, fill), cset, stream, fill);
    } else {
      assert stream[..|stream|] == stream;
    }
  }

  /** The stream has been filled up to whole groups, and all of them have been written. */
  lemma LastGroup(last: Encoder, cset: string, stream: seq<bool>, fill: nat)
    requires 0 < fill < 6 && Whole(|stream| + fill, 6)
    requires Tracks(last, cset, stream + BitsOf(0, fill)) && last.bits < 6
    ensures Encodes(cset, last.data, stream)
  {
    BitsOfZero(fill);
    var padded := stream + Zeros(fill);
    WholeStream(|padded|, last.bits, 6);
    PackFill(stream, 6, fill);
    assert padded[..|padded|] == padded;
  }

  class Base64Encoder {
    const cset: string
    var data: string
    var cacheData: Word
    var cacheBits: nat
    /** Everything put so far. */
    ghost var stream: seq<bool>

    function State(): Encoder
      reads this
    {
      Encoder(data, cacheData, cacheBits)
    }

    ghost predicate Valid()
      reads this
    {
      Tracks(State(), cset, stream) && cacheBits < 6
    }

    constructor ()
      ensures Valid() && stream == [] && cset == BASE64_CSET && State() == Encoder("", FromNat(0), 0)
    {
      cset, cacheData, cacheBits, data, stream := BASE64_CSET, FromNat(0), 0, "", [];
      Base64Alphabet();
      BitsOfZero(WORD_SIZE);
      assert [] + Zeros(WORD_SIZE) == Zeros(WORD_SIZE);
    }

    /** Appends a field; its bits are what the cache then holds unless it is too wide. */
    method Put(value: nat, n: nat)
      requires |cset| == 64
      modifies this
      ensures State() == PutField(old(State()), cset, value, n) && stream == old(stream) + BitsOf(value, n)
      ensures old(Valid()) && value < Pow2(n) && n <= MAX_WIDTH ==> Valid()
    {
      cacheData := BitOr(cacheData, ShiftLeft(FromNat(value), cacheBits));
      cacheBits := cacheBits + n;
      while cacheBits >= 6
        invariant Drained(State(), cset) == PutField(old(State()), cset, value, n) && stream == old(stream)
        decreases cacheBits
      {
        Emit();
      }
      stream := stream + BitsOf(value, n);
      if old(Valid()) && value < Pow2(n) && n <= MAX_WIDTH {
        PutTracks(old(State()), cset, old(stream), value, n);
      }
    }

    method Emit()
      requires |cset| == 64 && cacheBits >= 6
      modifies this`data, this`cacheData, this`cacheBits
      ensures State() == EmitOne(old(State()), cset)
    {
      data := data + [cset[Digit(cacheData)]];
      cacheData := ShiftRight(cacheData, 6);
      cacheBits := cacheBits - 6;
    }

    /** Returns the string for everything put so far. */
    method Get() returns (result: string)
      requires |cset| == 64
      modifies this
      ensures State() == Finished(old(State()), cset) && result == data
      ensures old(Valid()) ==> Encodes(cset, result, old(stream))
    {
      if old(Valid()) {
        FinishTracks(State(), cset, stream);
      }
      if cacheBits != 0 {
        Put(0, Missing(cacheBits));
      }
      result := data;
    }
  }

  // ---- The decoder ----

  /** What a decoder remembers. */
  datatype Decoder = Decoder(word: Word, bits: nat, pos: nat)

  /** strpos, from place `i` on; a character that does not occur counts as number 0. */
  function FirstAt(cset: string, c: char, i: nat): nat
    decreases |cset| - i
  {
    if i >= |cset| then 0 else if cset[i] == c then i else FirstAt(cset, c, i + 1)
  }

  function ReadOne(d: Decoder, data: string, cset: string): Decoder {
    var p := if d.pos < |data| then FirstAt(cset, data[d.pos], 0) else 0;
    Decoder(Added(d.word, ShiftLeft(FromNat(p), d.bits), false), d.bits + 6, d.pos + 1)
  }

  /** The loop of Get. */
  function Filled(d: Decoder, data: string, cset: string, n: nat): (f: Decoder)
    ensures f.bits >= n
    decreases n - d.bits
  {
    if d.bits < n then Filled(ReadOne(d, data, cset), data, cset, n) else d
  }

  function Taken(d: Decoder, n: nat): Decoder
    requires d.bits >= n
  {
    Decoder(ShiftRight(d.word, n), d.bits - n, d.pos)
  }

  /** The decoder has read whole characters and keeps bits below the sign. */
  ghost predicate Follows(d: Decoder, data: string, cset: string, digits: seq<nat>) {
    && Alphabet(cset) && Spells(cset, data, digits) && d.pos <= |data| && d.bits < WORD_SIZE && Caches(d.word, d.word[..d.bits])
  }

  /** The bits not yet read. */
  ghost function RestOf(d: Decoder, digits: seq<nat>): seq<bool> {
    if d.pos <= |digits| && d.bits <= WORD_SIZE then d.word[..d.bits] + Unpack(digits[d.pos..], 6) else []
  }

  lemma {:induction false} FirstIsOnly(cset: string, c: char, v: nat, i: nat)
    requires Alphabet(cset) && Stands(cset, c, v) && i <= v
    ensures FirstAt(cset, c, i) == v
    decreases v - i
  {
    if i < v {
      FirstIsOnly(cset, c, v, i + 1);
    }
  }

  /** The next character's bits are put above the others. */
  lemma AddCaches(word: Word, pending: seq<bool>, p: nat)
    requires Caches(word, pending) && |pending| + 6 < WORD_SIZE && p < 64
    ensures Caches(Added(word, ShiftLeft(FromNat(p), |pending|), false), pending + BitsOf(p, 6))
  {
    assert Pow2(6) == 64;
    ShiftedNumber(p, 6, |pending|);
    var high := BitsOf(p, 6) + Zeros(WORD_SIZE - |pending| - 6);
    assert Zeros(|pending|) + BitsOf(p, 6) + Zeros(WORD_SIZE - |pending| - 6) == Zeros(|pending|) + high;
    AddedAbove(pending, high);
    Reassociate(pending, BitsOf(p, 6), Zeros(WORD_SIZE - |pending| - 6));
  }

  lemma ReadFollows(d: Decoder, data: string, cset: string, digits: seq<nat>)
    requires Follows(d, data, cset, digits) && d.bits < MAX_WIDTH && d.pos < |data|
    ensures var r := ReadOne(d, data, cset);
      Follows(r, data, cset, digits) && RestOf(r, digits) == RestOf(d, digits)
  {
    var p, pending := digits[d.pos], d.word[..d.bits];
    assert Stands(cset, data[d.pos], p);
    FirstIsOnly(cset, data[d.pos], p, 0);
    AddCaches(d.word, pending, p);
    var r := ReadOne(d, data, cset);
    assert r.word[..r.bits] == pending + BitsOf(p, 6);
    assert digits[d.pos..][1..] == digits[d.pos + 1..];
    Reassociate(pending, BitsOf(p, 6), Unpack(digits[d.pos + 1..], 6));
  }

  lemma {:induction false} FillFollows(d: Decoder, data: string, cset: string, digits: seq<nat>, n: nat)
    requires Follows(d, data, cset, digits) && n <= MAX_WIDTH && n <= |RestOf(d, digits)|
    ensures var f := Filled(d, data, cset, n);
      Follows(f, data, cset, digits) && RestOf(f, digits) == RestOf(d, digits)
    decreases n - d.bits
  {
    if d.bits < n {
      assert d.pos < |data|;
      ReadFollows(d, data, cset, digits);
      FillFollows(ReadOne(d, data, cset), data, cset, digits, n);
    }
  }

  lemma GetFollows(d: Decoder, data: string, cset: string, digits: seq<nat>, n: nat)
    requires Follows(d, data, cset, digits) && n <= MAX_WIDTH && n <= |RestOf(d, digits)|
    ensures var f := Filled(d, data, cset, n); var rest := RestOf(d, digits);
      && Masked(f.word, n) == Num(rest[..n])
      && Follows(Taken(f, n), data, cset, digits) && RestOf(Taken(f, n), digits) == rest[n..]
  {
    FillFollows(d, data, cset, digits, n);
    TakeFollows(Filled(d, data, cset, n), data, cset, digits, n);
  }

  lemma TakeFollows(f: Decoder, data: string, cset: string, digits: seq<nat>, n: nat)
    requires Follows(f, data, cset, digits) && n <= f.bits
    ensures var rest := RestOf(f, digits);
      && n <= |rest| && Masked(f.word, n) == Num(rest[..n])
      && Follows(Taken(f, n), data, cset, digits) && RestOf(Taken(f, n), digits) == rest[n..]
  {
    var pending, t := f.word[..f.bits], Taken(f, n);
    ShiftCaches(f.word, pending, n);
    assert t.word[..t.bits] == pending[n..];
    SplitRest(pending, Unpack(digits[f.pos..], 6), n);
  }

  lemma SplitRest(pending: seq<bool>, tail: seq<bool>, n: nat)
    requires n <= |pending|
    ensures (pending + tail)[..n] == pending[..n] && (pending + tail)[n..] == pending[n..] + tail
  {
  }

  class Base64Decoder {
    const cset: string
    const data: string
    var cacheData: Word
    var cacheBits: nat
    var pos: nat
    /** The values of the characters of `data`. */
    ghost const digits: seq<nat>

    function State(): Decoder
      reads this
    {
      Decoder(cacheData, cacheBits, pos)
    }

    ghost predicate Valid()
      reads this
    {
      Follows(State(), data, cset, digits)
    }

    ghost function Rest(): seq<bool>
      reads this
    {
      RestOf(State(), digits)
    }

    constructor (s: string, ghost digits: seq<nat>)
      requires Spells(BASE64_CSET, s, digits)
      ensures Valid() && Rest() == Unpack(digits, 6) && data == s && cset == BASE64_CSET
        && State() == Decoder(FromNat(0), 0, 0)
    {
      Base64Alphabet();
      cset, data, cacheData, cacheBits, pos := BASE64_CSET, s, FromNat(0), 0, 0;
      this.digits := digits;
      new;
      BitsOfZero(WORD_SIZE);
      assert digits[0..] == digits && cacheData[..0] == [] && [] + Zeros(WORD_SIZE) == Zeros(WORD_SIZE);
    }

    method Strpos(c: char) returns (p: nat)
      ensures p == FirstAt(cset, c, 0)
    {
      p := 0;
      while p < |cset| && cset[p] != c
        invariant p <= |cset| && FirstAt(cset, c, p) == FirstAt(cset, c, 0)
      {
        p := p + 1;
      }
      if p == |cset| {
        p := 0;
      }
    }

    method ReadChar()
      modifies this
      ensures State() == ReadOne(old(State()), data, cset)
    {
      var p := 0;
      if pos < |data| {
        p := Strpos(data[pos]);
      }
      pos := pos + 1;
      cacheData := Added(cacheData, ShiftLeft(FromNat(p), cacheBits), false);
      cacheBits := cacheBits + 6;
    }

    /** Reads `n` bits; they are the next ones if they are there and not too many. */
    method Get(n: nat) returns (result: nat)
      modifies this
      ensures var f := Filled(old(State()), data, cset, n); State() == Taken(f, n) && result == Masked(f.word, n)
      ensures old(Valid()) && n <= |old(Rest())| && n <= MAX_WIDTH ==>
        Valid() && result == Num(old(Rest())[..n]) && Rest() == old(Rest())[n..]
    {
      if old(Valid()) && n <= |old(Rest())| && n <= MAX_WIDTH {
        GetFollows(State(), data, cset, digits, n);
      }
      while cacheBits < n
        invariant Filled(State(), data, cset, n) == Filled(old(State()), data, cset, n)
        decreases n - cacheBits
      {
        ReadChar();
      }
      result := Masked(cacheData, n);
      cacheData := ShiftRight(cacheData, n);
      cacheBits := cacheBits - n;
    }
  }

  // ---- Round trip ----

  function PutAll(e: Encoder, cset: string, fields: seq<Field>): Encoder
    requires |cset| == 64
    decreases |fields|
  {
    if fields == [] then e else PutAll(PutField(e, cset, fields[0].value, fields[0].width), cset, fields[1..])
  }

  /** The string that an encoder writes for these fields. */
  function Encoded(fields: seq<Field>, cset: string): string
    requires |cset| == 64
  {
    Finished(PutAll(Encoder("", FromNat(0), 0), cset, fields), cset).data
  }

  function GetAll(d: Decoder, data: string, cset: string, fields: seq<Field>): (values: seq<nat>)
    ensures |values| == |fields|
    decreases |fields|
  {
    if fields == [] then []
    else
      var f := Filled(d, data, cset, fields[0].width);
      [Masked(f.word, fields[0].width)] + GetAll(Taken(f, fields[0].width), data, cset, fields[1..])
  }

  /** The values that a decoder reads from the string with these widths. */
  function Decoded(data: string, cset: string, fields: seq<Field>): (values: seq<nat>)
    ensures |values| == |fields|
  {
    GetAll(Decoder(FromNat(0), 0, 0), data, cset, fields)
  }

  ghost predicate NoWider(fields: seq<Field>, w: nat) {
    forall i :: 0 <= i < |fields| ==> fields[i].width <= w
  }

  ghost predicate RoundTrips(fields: seq<Field>, cset: string)
    requires |cset| == 64
  {
    Decoded(Encoded(fields, cset), cset, fields) == Values(fields)
  }

  lemma EmptyCache()
    ensures Caches(FromNat(0), []) && FromNat(0)[..0] == []
  {
    BitsOfZero(WORD_SIZE);
    assert [] + Zeros(WORD_SIZE) == Zeros(WORD_SIZE);
  }

  lemma {:induction false} AllPutTracks(e: Encoder, cset: string, stream: seq<bool>, fields: seq<Field>)
    requires Tracks(e, cset, stream) && e.bits < 6 && AllFit(fields) && NoWider(fields, MAX_WIDTH)
    ensures Tracks(PutAll(e, cset, fields), cset, stream + FieldBits(fields)) && PutAll(e, cset, fields).bits < 6
    decreases |fields|
  {
    if fields == [] {
      assert stream + [] == stream;
    } else {
      var f := fields[0];
      AllFitRest(fields);
      PutTracks(e, cset, stream, f.value, f.width);
      AllPutTracks(PutField(e, cset, f.value, f.width), cset, stream + BitsOf(f.value, f.width), fields[1..]);
      Reassociate(stream, BitsOf(f.value, f.width), FieldBits(fields[1..]));
    }
  }

  /** What the encoder writes is the string of the fields' bits. */
  lemma EncodedIsExact(fields: seq<Field>, cset: string)
    requires Alphabet(cset) && AllFit(fields) && NoWider(fields, MAX_WIDTH)
    ensures Encodes(cset, Encoded(fields, cset), FieldBits(fields))
  {
    EmptyCache();
    AllPutTracks(Encoder("", FromNat(0), 0), cset, [], fields);
    assert [] + FieldBits(fields) == FieldBits(fields);
    FinishTracks(PutAll(Encoder("", FromNat(0), 0), cset, fields), cset, FieldBits(fields));
  }

  lemma {:induction false} AllGetFollows(d: Decoder, data: string, cset: string, digits: seq<nat>, fields: seq<Field>)
    requires Follows(d, data, cset, digits) && NoWider(fields, MAX_WIDTH) && |FieldBits(fields)| <= |RestOf(d, digits)|
    ensures GetAll(d, data, cset, fields) == ReadFields(RestOf(d, digits), fields)
    decreases |fields|
  {
    if fields != [] {
      var n := fields[0].width;
      GetFollows(d, data, cset, digits, n);
      AllGetFollows(Taken(Filled(d, data, cset, n), n), data, cset, digits, fields[1..]);
    }
  }

  /** Decoding what was encoded, with the same widths, returns the values. */
  lemma ShortFieldsRoundTrip(fields: seq<Field>, cset: string)
    requires Alphabet(cset) && AllFit(fields) && NoWider(fields, MAX_WIDTH)
    ensures RoundTrips(fields, cset)
  {
    EncodedIsExact(fields, cset);
    WholeStreamReadsBack(fields);
    EmptyCache();
    StartFollows(Encoded(fields, cset), cset, Pack(FieldBits(fields), 6));
    AllGetFollows(Decoder(FromNat(0), 0, 0), Encoded(fields, cset), cset, Pack(FieldBits(fields), 6), fields);
  }

  lemma StartFollows(data: string, cset: string, digits: seq<nat>)
    requires Alphabet(cset) && Spells(cset, data, digits)
    ensures Follows(Decoder(FromNat(0), 0, 0), data, cset, digits)
    ensures RestOf(Decoder(FromNat(0), 0, 0), digits) == Unpack(digits, 6)
  {
    EmptyCache();
    assert digits[0..] == digits;
  }

  // ---- A field that is too long ----

  /** After the first field, the second one reaches the sign. */
  function LongFields(): seq<Field> {
    [Field(0, 5), Field(Pow2(58), 59), Field(0, 2)]
  }

  /** `n` clear bits below set ones, up to the sign. */
  function Ones(n: nat): (w: Word)
    requires n <= WORD_SIZE
    ensures forall i :: 0 <= i < WORD_SIZE ==> w[i] == (i >= n)
  {
    seq(WORD_SIZE, i => i >= n)
  }

  function Repeated(c: char, n: nat): (s: string)
    ensures |s| == n && forall i :: 0 <= i < n ==> s[i] == c
  {
    seq(n, i => c)
  }

  lemma {:induction false} PowerBits(k: nat, n: nat)
    requires k < n
    ensures BitsOf(Pow2(k), n) == Zeros(k) + [true] + Zeros(n - k - 1)
    decreases k
  {
    if k == 0 {
      BitsOfZero(n - 1);
    } else {
      PowerBits(k - 1, n - 1);
      assert Zeros(k) + [true] + Zeros(n - k - 1) == [false] + (Zeros(k - 1) + [true] + Zeros(n - k - 1));
    }
  }

  /** The second field sets the sign, and nothing else. */
  lemma SignIsSet()
    ensures Joined(FromNat(0), Pow2(58), 5) == Ones(63)
  {
    PowerBits(58, WORD_SIZE);
    BitsOfZero(WORD_SIZE);
    var joined := Joined(FromNat(0), Pow2(58), 5);
    forall i | 0 <= i < WORD_SIZE
      ensures joined[i] == (i >= 63)
    {
    }
  }

  lemma NothingJoined(word: Word, bits: nat)
    ensures Joined(word, 0, bits) == word
  {
    BitsOfZero(WORD_SIZE);
    var joined := Joined(word, 0, bits);
    forall i | 0 <= i < WORD_SIZE
      ensures joined[i] == word[i]
    {
    }
  }

  /** Every shift to the right copies the sign. */
  lemma {:induction false} SignSpreads(data: string, cset: string, digits: nat)
    requires |cset| == 64 && digits <= 10
    ensures Drained(Encoder(data, Ones(6 * digits + 3), 6 * digits + 4), cset)
      == Encoder(data + Repeated(cset[0], digits), Ones(3), 4)
    decreases digits
  {
    if digits == 0 {
      assert data + Repeated(cset[0], 0) == data;
    } else {
      EmitsZero(Ones(6 * digits + 3), 6 * digits + 4);
      SignSpreads(data + [cset[0]], cset, digits - 1);
      assert [cset[0]] + Repeated(cset[0], digits - 1) == Repeated(cset[0], digits);
      Reassociate(data, [cset[0]], Repeated(cset[0], digits - 1));
    }
  }

  lemma EmitsZero(word: Word, bits: nat)
    requires 10 <= bits <= WORD_SIZE && word == Ones(bits - 1)
    ensures Digit(word) == 0 && ShiftRight(word, 6) == Ones(bits - 7)
  {
    assert word[..6] == Zeros(6);
    NumZeros(6);
    var shifted := ShiftRight(word, 6);
    forall i | 0 <= i < WORD_SIZE
      ensures shifted[i] == (i >= bits - 7)
    {
    }
  }

  lemma ThreePuts(e: Encoder, cset: string, a: Field, b: Field, c: Field)
    requires |cset| == 64
    ensures PutAll(e, cset, [a, b, c])
      == PutField(PutField(PutField(e, cset, a.value, a.width), cset, b.value, b.width), cset, c.value, c.width)
  {
    var e1 := PutField(e, cset, a.value, a.width);
    var e2 := PutField(e1, cset, b.value, b.width);
    var e3 := PutField(e2, cset, c.value, c.width);
    assert [a, b, c][1..] == [b, c] && [b, c][1..] == [c] && [c][1..] == [];
    assert PutAll(e, cset, [a, b, c]) == PutAll(e1, cset, [b, c]);
    assert PutAll(e1, cset, [b, c]) == PutAll(e2, cset, [c]);
    assert PutAll(e2, cset, [c]) == PutAll(e3, cset, []);
  }

  /** The copies of the sign get into the last character. */
  lemma LongFieldsEncoded(cset: string)
    requires |cset| == 64
    ensures Encoded(LongFields(), cset) == Repeated(cset[0], 10) + [cset[56]]
  {
    var e := LongFieldPut(cset);
    LastCharacter(e, cset);
    ThreePuts(Encoder("", FromNat(0), 0), cset, Field(0, 5), Field(Pow2(58), 59), Field(0, 2));
  }

  lemma LongFieldPut(cset: string) returns (e: Encoder)
    requires |cset| == 64
    ensures e == PutField(PutField(Encoder("", FromNat(0), 0), cset, 0, 5), cset, Pow2(58), 59)
    ensures e == Encoder(Repeated(cset[0], 10), Ones(3), 4)
  {
    NothingJoined(FromNat(0), 0);
    var first := Encoder("", FromNat(0), 5);
    assert PutField(Encoder("", FromNat(0), 0), cset, 0, 5) == first;
    SignIsSet();
    SecondPut(first, cset, Pow2(58));
    e := PutField(first, cset, Pow2(58), 59);
  }

  lemma SecondPut(first: Encoder, cset: string, value: nat)
    requires |cset| == 64 && first == Encoder("", FromNat(0), 5) && Joined(first.word, value, 5) == Ones(63)
    ensures PutField(first, cset, value, 59) == Encoder(Repeated(cset[0], 10), Ones(3), 4)
  {
    TenDigits(PutField(first, cset, value, 59), cset, 10);
  }

  lemma TenDigits(e: Encoder, cset: string, digits: nat)
    requires |cset| == 64 && digits <= 10 && e == Drained(Encoder("", Ones(6 * digits + 3), 6 * digits + 4), cset)
    ensures e == Encoder(Repeated(cset[0], digits), Ones(3), 4)
  {
    SignSpreads("", cset, digits);
    assert "" + Repeated(cset[0], digits) == Repeated(cset[0], digits);
  }

  lemma LastCharacter(e: Encoder, cset: string)
    requires |cset| == 64 && e.word == Ones(3) && e.bits == 4
    ensures PutField(e, cset, 0, 2) == Encoder(e.data + [cset[56]], ShiftRight(e.word, 6), 0)
  {
    NothingJoined(e.word, 4);
    UpperThree();
    assert e.word[..6] == BitsOf(56, 6);
    assert Drained(EmitOne(Encoder(e.data, e.word, 6), cset), cset) == EmitOne(Encoder(e.data, e.word, 6), cset);
  }

  lemma UpperThree()
    ensures BitsOf(56, 6) == [false, false, false, true, true, true] && Num(BitsOf(56, 6)) == 56
    ensures BitsOf(3, 2) == [true, true] && Num(BitsOf(3, 2)) == 3
  {
    assert Pow2(6) == 64 && Pow2(2) == 4;
    NumOfBits(56, 6);
    LowIsIdentity(56, 6);
    NumOfBits(3, 2);
    LowIsIdentity(3, 2);
  }

  // ---- Reading it back ----

  lemma ReadsZero(d: Decoder, data: string, cset: string)
    requires Alphabet(cset) && d.pos < |data| && data[d.pos] == cset[0] && d.word == FromNat(0)
    ensures ReadOne(d, data, cset) == Decoder(FromNat(0), d.bits + 6, d.pos + 1)
  {
    assert Stands(cset, cset[0], 0);
    FirstIsOnly(cset, cset[0], 0, 0);
    NothingAdded(d.bits);
  }

  lemma NothingAdded(bits: nat)
    ensures Added(FromNat(0), ShiftLeft(FromNat(0), bits), false) == FromNat(0)
  {
    BitsOfZero(WORD_SIZE);
    assert ShiftLeft(FromNat(0), bits) == Zeros(WORD_SIZE);
    AddedZeros(Zeros(WORD_SIZE));
  }

  lemma {:induction false} ReadsZeros(d: Decoder, data: string, cset: string)
    requires Alphabet(cset) && data == Repeated(cset[0], 10) + [cset[56]]
    requires 1 <= d.pos <= 10 && d.word == FromNat(0) && d.bits == 6 * d.pos - 5
    ensures Filled(d, data, cset, 59) == ReadOne(Decoder(FromNat(0), 55, 10), data, cset)
    decreases 10 - d.pos
  {
    hide Alphabet, Repeated, FromNat;
    if d.pos < 10 {
      ReadsZero(d, data, cset);
      ReadsZeros(ReadOne(d, data, cset), data, cset);
    }
  }

  /** The last character leaves two bits behind, both of them set. */
  lemma TooManyBits(data: string, cset: string)
    requires Alphabet(cset) && data == Repeated(cset[0], 10) + [cset[56]]
    ensures var d := Taken(ReadOne(Decoder(FromNat(0), 55, 10), data, cset), 59);
      d.bits == 2 && Masked(d.word, 2) == 3
  {
    assert Stands(cset, cset[56], 56);
    FirstIsOnly(cset, cset[56], 56, 0);
    LastBits();
    UpperThree();
  }

  lemma LastBits()
    ensures ShiftRight(Added(FromNat(0), ShiftLeft(FromNat(56), 55), false), 59)[..2] == [true, true]
  {
    UpperThree();
    LastWord();
    TwoOnTop(Zeros(55) + BitsOf(56, 6) + Zeros(3));
  }

  lemma LastWord()
    ensures Added(FromNat(0), ShiftLeft(FromNat(56), 55), false) == Zeros(55) + BitsOf(56, 6) + Zeros(3)
  {
    BitsOfZero(WORD_SIZE);
    assert Pow2(6) == 64;
    ShiftedNumber(56, 6, 55);
    AddedZeros(ShiftLeft(FromNat(56), 55));
  }

  lemma TwoOnTop(word: Word)
    requires word == Zeros(55) + [false, false, false, true, true, true] + Zeros(3)
    ensures ShiftRight(word, 59)[..2] == [true, true]
  {
    assert word[59] && word[60];
    assert ShiftRight(word, 59)[0] && ShiftRight(word, 59)[1];
  }

  lemma ThreeGets(d: Decoder, data: string, cset: string, a: Field, b: Field, c: Field)
    ensures var d1 := Taken(Filled(d, data, cset, a.width), a.width); var d2 := Taken(Filled(d1, data, cset, b.width), b.width);
      GetAll(d, data, cset, [a, b, c])[2] == Masked(Filled(d2, data, cset, c.width).word, c.width)
  {
    var f := Filled(d, data, cset, a.width);
    var d1 := Taken(f, a.width);
    var g := Filled(d1, data, cset, b.width);
    var d2 := Taken(g, b.width);
    assert [a, b, c][1..] == [b, c] && [b, c][1..] == [c];
    assert GetAll(d, data, cset, [a, b, c]) == [Masked(f.word, a.width)] + GetAll(d1, data, cset, [b, c]);
    assert GetAll(d1, data, cset, [b, c]) == [Masked(g.word, b.width)] + GetAll(d2, data, cset, [c]);
    assert GetAll(d2, data, cset, [c])[0] == Masked(Filled(d2, data, cset, c.width).word, c.width);
  }

  lemma LongFieldsDecoded(data: string, cset: string)
    requires Alphabet(cset) && data == Repeated(cset[0], 10) + [cset[56]]
    ensures Decoded(data, cset, LongFields())[2] == 3
  {
    var d1 := FirstGet(data, cset);
    ReadsZeros(d1, data, cset);
    TooManyBits(data, cset);
    ThreeGets(Decoder(FromNat(0), 0, 0), data, cset, Field(0, 5), Field(Pow2(58), 59), Field(0, 2));
  }

  lemma FirstGet(data: string, cset: string) returns (d: Decoder)
    requires Alphabet(cset) && data == Repeated(cset[0], 10) + [cset[56]]
    ensures d == Taken(Filled(Decoder(FromNat(0), 0, 0), data, cset, 5), 5) && d == Decoder(FromNat(0), 1, 1)
  {
    d := Decoder(FromNat(0), 1, 1);
    ReadsZero(Decoder(FromNat(0), 0, 0), data, cset);
    assert Filled(Decoder(FromNat(0), 6, 1), data, cset, 5) == Decoder(FromNat(0), 6, 1);
    assert Filled(Decoder(FromNat(0), 0, 0), data, cset, 5) == Decoder(FromNat(0), 6, 1);
    hide Filled, ReadOne, Alphabet, Repeated;
    TakenFive();
  }

  lemma TakenFive()
    ensures Taken(Decoder(FromNat(0), 6, 1), 5) == Decoder(FromNat(0), 1, 1)
  {
    BitsOfZero(WORD_SIZE);
    assert Taken(Decoder(FromNat(0), 6, 1), 5).word == FromNat(0);
  }

  lemma LongFieldsFit(p: nat, q: nat)
    requires p == Pow2(58) && q == Pow2(59)
    ensures AllFit(LongFields()) && NoWider(LongFields(), 59)
  {
    assert q == 2 * p && Pow2(5) == 32 && Pow2(2) == 4;
    assert Fits(Field(0, 5)) && Fits(Field(p, 59)) && Fits(Field(0, 2));
    var fields := LongFields();
    forall i | 0 <= i < |fields|
      ensures Fits(fields[i])
    {
      assert i == 0 || i == 1 || i == 2;
    }
  }

  /** The third field is read as 3. */
  lemma LongFieldBreaks(cset: string)
    requires Alphabet(cset)
    ensures AllFit(LongFields()) && NoWider(LongFields(), 59) && !RoundTrips(LongFields(), cset)
  {
    LongFieldsFit(Pow2(58), Pow2(59));
    LongFieldsEncoded(cset);
    LongFieldsDecoded(Encoded(LongFields(), cset), cset);
    assert Values(LongFields())[2] == 0;
  }

  /** Fields are carried through unharmed exactly as long as none is wider than 58 bits. */
  lemma RoundTripIffShort(cset: string, w: nat)
    requires Alphabet(cset)
    ensures (forall fields :: AllFit(fields) && NoWider(fields, w) ==> RoundTrips(fields, cset)) <==> w <= MAX_WIDTH
  {
    if w <= MAX_WIDTH {
      forall fields | AllFit(fields) && NoWider(fields, w)
        ensures RoundTrips(fields, cset)
      {
        ShortFieldsRoundTrip(fields, cset);
      }
    } else {
      LongFieldBreaks(cset);
      assert NoWider(LongFields(), w);
    }
  }
}
