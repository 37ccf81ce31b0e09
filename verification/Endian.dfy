/** radixtree/endian.hh and CalcBytesNeededByInt of radixtree/templates.hh: little-endian
    integers of one to eight bytes. */
module Endian {
  import opened Bits
  import opened BitStream

  type Byte = b: nat | b < 256

  /** The `n` lowest bytes of a number, the lowest first. */
  function Bytes(value: nat, n: nat): (bytes: seq<Byte>)
    ensures |bytes| == n
  {
    if n == 0 then [] else [value % 256] + Bytes(value / 256, n - 1)
  }

  /** The number that the bytes spell. */
  function ValueOf(bytes: seq<Byte>): nat {
    if bytes == [] then 0 else bytes[0] + 256 * ValueOf(bytes[1..])
  }

  function Pow256(n: nat): (p: nat)
    ensures p > 0
  {
    if n == 0 then 1 else 256 * Pow256(n - 1)
  }

  lemma {:induction false} ReadBack(value: nat, n: nat)
    requires value < Pow256(n)
    ensures ValueOf(Bytes(value, n)) == value
  {
    if n > 0 {
      ReadBack(value / 256, n - 1);
    }
  }

  lemma {:induction false} ValueBound(bytes: seq<Byte>)
    ensures ValueOf(bytes) < Pow256(|bytes|)
  {
    if bytes != [] {
      ValueBound(bytes[1..]);
    }
  }

  lemma {:induction false} BytesOfValue(bytes: seq<Byte>)
    ensures Bytes(ValueOf(bytes), |bytes|) == bytes
  {
    if bytes != [] {
      BytesOfValue(bytes[1..]);
      assert ValueOf(bytes) % 256 == bytes[0] && ValueOf(bytes) / 256 == ValueOf(bytes[1..]);
    }
  }

  lemma {:induction false} Pow256Monotone(m: nat, n: nat)
    requires m <= n
    ensures Pow256(m) <= Pow256(n)
    decreases n
  {
    if m < n {
      Pow256Monotone(m, n - 1);
    }
  }

  // ---- Reading ----

  function R8(p: seq<Byte>): nat
    requires |p| >= 1
  {
    p[0]
  }

  function R16(p: seq<Byte>): nat
    requires |p| >= 2
  {
    Or(R8(p), Shl(R8(p[1..]), 8))
  }

  function R32(p: seq<Byte>): nat
    requires |p| >= 4
  {
    Or(R16(p), Shl(R16(p[2..]), 16))
  }

  function R64(p: seq<Byte>): nat
    requires |p| >= 8
  {
    Or(R32(p), Shl(R32(p[4..]), 32))
  }

  /** The switch of Rn, whose odd cases fall through from 7 down to 1. */
  function Rn(p: seq<Byte>, bytes: nat): nat
    requires |p| >= bytes
  {
    match bytes
    case 8 => R64(p)
    case 4 => R32(p)
    case 2 => R16(p)
    case 7 => From6(Shl(R8(p[6..]), 48), p)
    case 6 => From6(0, p)
    case 5 => From5(0, p)
    case 3 => From3(0, p)
    case 1 => Or(0, R8(p))
    case _ => 0
  }

  function From6(res: nat, p: seq<Byte>): nat
    requires |p| >= 6
  {
    From5(Or(res, Shl(R8(p[5..]), 40)), p)
  }

  function From5(res: nat, p: seq<Byte>): nat
    requires |p| >= 5
  {
    From3(Or(res, Shl(R16(p[3..]), 24)), p)
  }

  function From3(res: nat, p: seq<Byte>): nat
    requires |p| >= 3
  {
    Or(Or(res, Shl(R16(p[1..]), 8)), R8(p))
  }

  // ---- Writing ----

  /** The bytes from `p` on are these; the others are as before. */
  ghost predicate Wrote(now: seq<Byte>, before: seq<Byte>, p: nat, bytes: seq<Byte>) {
    p + |bytes| <= |before| && now == before[..p] + bytes + before[p + |bytes|..]
  }

  method W8(buf: array<Byte>, p: nat, value: nat)
    requires p < buf.Length
    modifies buf
    ensures Wrote(buf[..], old(buf[..]), p, Bytes(value, 1))
  {
    buf[p] := value % 256;
    assert Bytes(value, 1) == [value % 256];
  }

  lemma WroteTwice(a: seq<Byte>, b: seq<Byte>, c: seq<Byte>, p: nat, first: seq<Byte>, second: seq<Byte>)
    requires Wrote(b, a, p, first) && Wrote(c, b, p + |first|, second)
    ensures Wrote(c, a, p, first + second)
  {
    assert b[..p + |first|] == a[..p] + first;
  }

  /** The upper part first. */
  lemma WroteBackwards(a: seq<Byte>, b: seq<Byte>, c: seq<Byte>, p: nat, first: seq<Byte>, second: seq<Byte>)
    requires Wrote(b, a, p + |first|, second) && Wrote(c, b, p, first)
    ensures Wrote(c, a, p, first + second)
  {
    assert b[p + |first|..] == second + a[p + |first| + |second|..];
  }

  lemma {:induction false} BytesSplit(value: nat, m: nat, n: nat)
    ensures Bytes(value, m + n) == Bytes(value, m) + Bytes(Shr(value, 8 * m), n)
    decreases m
  {
    if m > 0 {
      BytesSplit(value / 256, m - 1, n);
      ShrByte(value, 8 * (m - 1));
    }
  }

  lemma ShrByte(value: nat, k: nat)
    ensures Shr(value, k + 8) == Shr(value / 256, k)
  {
    assert value / 2 / 2 / 2 / 2 / 2 / 2 / 2 / 2 == value / 256;
    ShrStep(value, k + 7);
    ShrStep(value / 2, k + 6);
    ShrStep(value / 2 / 2, k + 5);
    ShrStep(value / 2 / 2 / 2, k + 4);
    ShrStep(value / 2 / 2 / 2 / 2, k + 3);
    ShrStep(value / 2 / 2 / 2 / 2 / 2, k + 2);
    ShrStep(value / 2 / 2 / 2 / 2 / 2 / 2, k + 1);
    ShrStep(value / 2 / 2 / 2 / 2 / 2 / 2 / 2, k);
  }

  lemma ShrStep(value: nat, k: nat)
    ensures Shr(value, k + 1) == Shr(value / 2, k)
  {
  }

  method W16(buf: array<Byte>, p: nat, value: nat)
    requires p + 2 <= buf.Length
    modifies buf
    ensures Wrote(buf[..], old(buf[..]), p, Bytes(value, 2))
  {
    ghost var a := buf[..];
    W8(buf, p, value);
    ghost var b := buf[..];
    W8(buf, p + 1, Shr(value, 8));
    WroteTwice(a, b, buf[..], p, Bytes(value, 1), Bytes(Shr(value, 8), 1));
    BytesSplit(value, 1, 1);
  }

  method W24(buf: array<Byte>, p: nat, value: nat)
    requires p + 3 <= buf.Length
    modifies buf
    ensures Wrote(buf[..], old(buf[..]), p, Bytes(value, 3))
  {
    ghost var a := buf[..];
    W16(buf, p, value);
    ghost var b := buf[..];
    W8(buf, p + 2, Shr(value, 16));
    WroteTwice(a, b, buf[..], p, Bytes(value, 2), Bytes(Shr(value, 16), 1));
    BytesSplit(value, 2, 1);
  }

  method W32(buf: array<Byte>, p: nat, value: nat)
    requires p + 4 <= buf.Length
    modifies buf
    ensures Wrote(buf[..], old(buf[..]), p, Bytes(value, 4))
  {
    ghost var a := buf[..];
    W16(buf, p, value);
    ghost var b := buf[..];
    W16(buf, p + 2, Shr(value, 16));
    WroteTwice(a, b, buf[..], p, Bytes(value, 2), Bytes(Shr(value, 16), 2));
    BytesSplit(value, 2, 2);
  }

  method W64(buf: array<Byte>, p: nat, value: nat)
    requires p + 8 <= buf.Length
    modifies buf
    ensures Wrote(buf[..], old(buf[..]), p, Bytes(value, 8))
  {
    ghost var a := buf[..];
    W32(buf, p, value);
    ghost var b := buf[..];
    W32(buf, p + 4, Shr(value, 32));
    WroteTwice(a, b, buf[..], p, Bytes(value, 4), Bytes(Shr(value, 32), 4));
    BytesSplit(value, 4, 4);
  }

  /** The switch of Wn, which falls through from 7 down to 4. */
  method Wn(buf: array<Byte>, p: nat, value: nat, bytes: nat)
    requires 1 <= bytes <= 8 && p + bytes <= buf.Length
    modifies buf
    ensures Wrote(buf[..], old(buf[..]), p, Bytes(value, bytes))
  {
    if bytes == 8 {
      W64(buf, p, value);
    } else if bytes >= 4 {
      WriteFrom7(buf, p, value, bytes);
    } else if bytes == 3 {
      W24(buf, p, value);
    } else if bytes == 2 {
      W16(buf, p, value);
    } else {
      W8(buf, p, value);
    }
  }

  /** The bytes from number `k` on are written, if there are any. */
  ghost predicate Above(s: seq<Byte>, a: seq<Byte>, p: nat, value: nat, k: nat, bytes: nat) {
    if k < bytes then Wrote(s, a, p + k, Bytes(Shr(value, 8 * k), bytes - k)) else Wrote(s, a, p + bytes, [])
  }

  method WriteFrom7(buf: array<Byte>, p: nat, value: nat, bytes: nat)
    requires 4 <= bytes <= 7 && p + bytes <= buf.Length
    modifies buf
    ensures Wrote(buf[..], old(buf[..]), p, Bytes(value, bytes))
  {
    ghost var a := buf[..];
    assert Above(a, a, p, value, 7, bytes);
    if bytes >= 7 {
      WriteHigh(buf, p, value, 6, bytes, a);
    }
    assert Above(buf[..], a, p, value, 6, bytes);
    if bytes >= 6 {
      WriteHigh(buf, p, value, 5, bytes, a);
    }
    assert Above(buf[..], a, p, value, 5, bytes);
    if bytes >= 5 {
      WriteHigh(buf, p, value, 4, bytes, a);
    }
    WriteLow(buf, p, value, bytes, a);
  }

  /** The low four bytes, the ones above being written. */
  method WriteLow(buf: array<Byte>, p: nat, value: nat, ghost bytes: nat, ghost a: seq<Byte>)
    requires 4 <= bytes && p + bytes <= buf.Length && Above(buf[..], a, p, value, 4, bytes)
    modifies buf
    ensures Wrote(buf[..], a, p, Bytes(value, bytes))
  {
    AboveAll(buf[..], a, p, value, 4, bytes);
    hide *;
    ghost var b := buf[..];
    W32(buf, p, value);
    WroteBackwards(a, b, buf[..], p, Bytes(value, 4), Bytes(Shr(value, 32), bytes - 4));
    BytesSplit(value, 4, bytes - 4);
  }

  lemma AboveAll(s: seq<Byte>, a: seq<Byte>, p: nat, value: nat, k: nat, bytes: nat)
    requires k <= bytes && Above(s, a, p, value, k, bytes)
    ensures Wrote(s, a, p + k, Bytes(Shr(value, 8 * k), bytes - k))
  {
    assert Bytes(Shr(value, 8 * bytes), 0) == [];
  }

  lemma AllAbove(s: seq<Byte>, a: seq<Byte>, p: nat, value: nat, k: nat, bytes: nat)
    requires k < bytes && Wrote(s, a, p + k, Bytes(Shr(value, 8 * k), bytes - k))
    ensures Above(s, a, p, value, k, bytes)
  {
  }

  /** Byte `k`, the ones above being written. */
  method WriteHigh(buf: array<Byte>, p: nat, value: nat, k: nat, ghost bytes: nat, ghost a: seq<Byte>)
    requires k < bytes && p + bytes <= buf.Length && Above(buf[..], a, p, value, k + 1, bytes)
    modifies buf
    ensures Above(buf[..], a, p, value, k, bytes)
  {
    hide *;
    AboveAll(buf[..], a, p, value, k + 1, bytes);
    ghost var b := buf[..];
    W8(buf, p + k, Shr(value, 8 * k));
    ShrTwice(value, 8 * k);
    WroteBackwards(a, b, buf[..], p + k, Bytes(Shr(value, 8 * k), 1), Bytes(Shr(value, 8 * (k + 1)), bytes - k - 1));
    BytesSplit(Shr(value, 8 * k), 1, bytes - k - 1);
    AllAbove(buf[..], a, p, value, k, bytes);
  }

  lemma {:induction false} ShrTwice(value: nat, k: nat)
    ensures Shr(Shr(value, k), 8) == Shr(value, k + 8)
    decreases k
  {
    if k > 0 {
      ShrTwice(value / 2, k - 1);
      ShrStep(value, k + 7);
    }
  }

  // ---- Rn reads what the bytes spell ----

  lemma {:induction false} OrCommutes(x: nat, y: nat)
    ensures Or(x, y) == Or(y, x)
    decreases x + y
  {
    if x != 0 || y != 0 {
      OrCommutes(x / 2, y / 2);
    }
  }

  lemma Pow2OfBytes(n: nat)
    ensures Pow2(8 * n) == Pow256(n)
    decreases n
  {
    if n > 0 {
      Pow2OfBytes(n - 1);
      var k := 8 * (n - 1);
      assert Pow2(k + 8) == 2 * Pow2(k + 7) == 4 * Pow2(k + 6) == 8 * Pow2(k + 5) == 16 * Pow2(k + 4);
      assert Pow2(k + 4) == 2 * Pow2(k + 3) == 4 * Pow2(k + 2) == 8 * Pow2(k + 1) == 16 * Pow2(k);
    }
  }

  /** Two parts of a number: the bytes below `m` and those above. */
  lemma {:induction false} ValueAppend(a: seq<Byte>, b: seq<Byte>)
    ensures ValueOf(a + b) == ValueOf(a) + Shl(ValueOf(b), 8 * |a|)
    decreases |a|
  {
    if a == [] {
      assert a + b == b;
    } else {
      assert (a + b)[1..] == a[1..] + b;
      ValueAppend(a[1..], b);
      ShlByte(ValueOf(b), 8 * |a[1..]|);
    }
  }

  lemma ShlByte(v: nat, k: nat)
    ensures Shl(v, k + 8) == 256 * Shl(v, k)
  {
    assert Shl(v, k + 8) == 2 * Shl(v, k + 7) == 4 * Shl(v, k + 6) == 8 * Shl(v, k + 5) == 16 * Shl(v, k + 4);
    assert Shl(v, k + 4) == 2 * Shl(v, k + 3) == 4 * Shl(v, k + 2) == 8 * Shl(v, k + 1) == 16 * Shl(v, k);
  }

  /** Joining the parts with `|` gives the whole. */
  lemma Join(a: seq<Byte>, b: seq<Byte>)
    ensures Or(ValueOf(a), Shl(ValueOf(b), 8 * |a|)) == ValueOf(a + b)
    ensures Or(Shl(ValueOf(b), 8 * |a|), ValueOf(a)) == ValueOf(a + b)
  {
    ValueBound(a);
    Pow2OfBytes(|a|);
    OrDisjoint(ValueOf(a), ValueOf(b), 8 * |a|);
    OrCommutes(ValueOf(a), Shl(ValueOf(b), 8 * |a|));
    ValueAppend(a, b);
  }

  lemma R8IsValue(p: seq<Byte>)
    requires |p| >= 1
    ensures R8(p) == ValueOf(p[..1])
  {
    assert p[..1][1..] == [];
  }

  lemma R16IsValue(p: seq<Byte>)
    requires |p| >= 2
    ensures R16(p) == ValueOf(p[..2])
  {
    R8IsValue(p);
    R8IsValue(p[1..]);
    Join(p[..1], p[1..][..1]);
    assert p[..2] == p[..1] + p[1..][..1];
  }

  lemma R32IsValue(p: seq<Byte>)
    requires |p| >= 4
    ensures R32(p) == ValueOf(p[..4])
  {
    R16IsValue(p);
    R16IsValue(p[2..]);
    Join(p[..2], p[2..][..2]);
    assert p[..4] == p[..2] + p[2..][..2];
  }

  lemma R64IsValue(p: seq<Byte>)
    requires |p| >= 8
    ensures R64(p) == ValueOf(p[..8])
  {
    R32IsValue(p);
    R32IsValue(p[4..]);
    Join(p[..4], p[4..][..4]);
    assert p[..8] == p[..4] + p[4..][..4];
  }

  lemma {:induction false} OrShifted(x: nat, y: nat, k: nat)
    ensures Or(Shl(x, k), Shl(y, k)) == Shl(Or(x, y), k)
    decreases k
  {
    if k > 0 {
      OrShifted(x, y, k - 1);
      OrDouble(Shl(x, k - 1), Shl(y, k - 1));
    }
  }

  lemma OrDouble(x: nat, y: nat)
    ensures Or(2 * x, 2 * y) == 2 * Or(x, y)
  {
  }

  lemma {:induction false} ShlTwice(v: nat, j: nat, k: nat)
    ensures Shl(Shl(v, j), k) == Shl(v, j + k)
    decreases k
  {
    if k > 0 {
      ShlTwice(v, j, k - 1);
    }
  }

  /** The same with both parts above `m` bytes. */
  lemma JoinAbove(a: seq<Byte>, b: seq<Byte>, m: nat)
    ensures Or(Shl(ValueOf(b), 8 * (m + |a|)), Shl(ValueOf(a), 8 * m)) == Shl(ValueOf(a + b), 8 * m)
  {
    ShlTwice(ValueOf(b), 8 * |a|, 8 * m);
    OrShifted(Shl(ValueOf(b), 8 * |a|), ValueOf(a), 8 * m);
    Join(a, b);
  }

  lemma From3IsValue(res: nat, p: seq<Byte>, n: nat)
    requires 3 <= n <= |p| && res == Shl(ValueOf(p[3..n]), 24)
    ensures From3(res, p) == ValueOf(p[..n])
  {
    R16IsValue(p[1..]);
    R8IsValue(p);
    JoinAbove(p[1..][..2], p[3..n], 1);
    assert p[1..n] == p[1..][..2] + p[3..n];
    Join(p[..1], p[1..n]);
    assert p[..n] == p[..1] + p[1..n];
  }

  lemma From5IsValue(res: nat, p: seq<Byte>, n: nat)
    requires 5 <= n <= |p| && res == Shl(ValueOf(p[5..n]), 40)
    ensures From5(res, p) == ValueOf(p[..n])
  {
    R16IsValue(p[3..]);
    JoinAbove(p[3..][..2], p[5..n], 3);
    assert p[3..n] == p[3..][..2] + p[5..n];
    From3IsValue(Shl(ValueOf(p[3..n]), 24), p, n);
  }

  lemma From6IsValue(res: nat, p: seq<Byte>, n: nat)
    requires 6 <= n <= |p| && res == Shl(ValueOf(p[6..n]), 48)
    ensures From6(res, p) == ValueOf(p[..n])
  {
    R8IsValue(p[5..]);
    JoinAbove(p[5..][..1], p[6..n], 5);
    assert p[5..n] == p[5..][..1] + p[6..n];
    From5IsValue(Shl(ValueOf(p[5..n]), 40), p, n);
  }

  /** Rn reads the number that the first `n` bytes spell. */
  lemma RnIsValue(p: seq<Byte>, n: nat)
    requires 1 <= n <= 8 && n <= |p|
    ensures Rn(p, n) == ValueOf(p[..n])
  {
    match n
    case 8 => R64IsValue(p);
    case 4 => R32IsValue(p);
    case 2 => R16IsValue(p);
    case 7 =>
      R8IsValue(p[6..]);
      assert p[6..][..1] == p[6..7];
      From6IsValue(Shl(R8(p[6..]), 48), p, 7);
    case 6 =>
      ShlZero(48);
      assert ValueOf(p[6..6]) == 0;
      From6IsValue(0, p, 6);
    case 5 =>
      ShlZero(40);
      assert ValueOf(p[5..5]) == 0;
      From5IsValue(0, p, 5);
    case 3 =>
      ShlZero(24);
      assert ValueOf(p[3..3]) == 0;
      From3IsValue(0, p, 3);
    case 1 =>
      R8IsValue(p);
      OrZero(R8(p));
  }

  /** Rn at a place in memory. */
  method ReadN(memory: seq<Byte>, p: nat, n: nat) returns (value: nat)
    requires 1 <= n <= 8 && p + n <= |memory|
    ensures value == ValueOf(memory[p..p + n])
  {
    RnIsValue(memory[p..p + n], n);
    assert memory[p..p + n][..n] == memory[p..p + n];
    value := Rn(memory[p..p + n], n);
  }

  // ---- The width of a link ----

  /** How many bytes a value needs; values have 64 bits. */
  function CalcBytesNeededByInt(value: nat): (bytes: nat)
    ensures 1 <= bytes <= 8
  {
    if value / 0x1_0000_0000 != 0 then
      if value / 0x1_0000_0000_0000 != 0 then (if value / 0x100_0000_0000_0000 != 0 then 8 else 7)
      else if value / 0x100_0000_0000 != 0 then 6 else 5
    else if value / 0x1_0000 % 0x1_0000 != 0 then (if value / 0x100_0000 % 0x100 != 0 then 4 else 3)
    else if value / 0x100 % 0x100 != 0 then 2 else 1
  }

  lemma Pow256Values()
    ensures Pow256(1) == 0x100 && Pow256(2) == 0x1_0000 && Pow256(3) == 0x100_0000 && Pow256(4) == 0x1_0000_0000
    ensures Pow256(5) == 0x100_0000_0000 && Pow256(6) == 0x1_0000_0000_0000 && Pow256(7) == 0x100_0000_0000_0000
    ensures Pow256(8) == 0x1_0000_0000_0000_0000
  {
  }

  /** The width is enough, and no smaller width is. */
  lemma WidthIsExact(value: nat)
    requires value < 0x1_0000_0000_0000_0000
    ensures var n := CalcBytesNeededByInt(value); value < Pow256(n) && (n > 1 ==> value >= Pow256(n - 1))
  {
    Pow256Values();
  }

  /** A value has this many bytes: it fits, and not into fewer. */
  ghost predicate HasWidth(n: nat, value: nat) {
    1 <= n <= 8 && value < Pow256(n) && (n > 1 ==> value >= Pow256(n - 1))
  }

  ghost function LinkWidth(value: nat): (n: nat)
    ensures 1 <= n <= 8
  {
    if n: nat :| HasWidth(n, value) then n else 8
  }

  lemma WidthIsUnique(value: nat, m: nat, n: nat)
    requires HasWidth(m, value) && HasWidth(n, value)
    ensures m == n
  {
    if m < n {
      Pow256Monotone(m, n - 1);
    } else if n < m {
      Pow256Monotone(n, m - 1);
    }
  }

  lemma LinkWidthIsCalculated(value: nat)
    requires value < 0x1_0000_0000_0000_0000
    ensures LinkWidth(value) == CalcBytesNeededByInt(value) && HasWidth(LinkWidth(value), value)
  {
    WidthIsExact(value);
    assert HasWidth(CalcBytesNeededByInt(value), value);
    WidthIsUnique(value, LinkWidth(value), CalcBytesNeededByInt(value));
  }

  /** The width of a link. */
  method CalcLinkBytes(value: nat) returns (n: nat)
    requires value < 0x1_0000_0000_0000_0000
    ensures n == LinkWidth(value) && HasWidth(n, value)
  {
    LinkWidthIsCalculated(value);
    n := CalcBytesNeededByInt(value);
  }

  /** What Wn writes at the width that was chosen, or at a wider one, Rn reads back. */
  lemma LinkReadsBack(value: nat, width: nat)
    requires value < 0x1_0000_0000_0000_0000 && CalcBytesNeededByInt(value) <= width <= 8
    ensures Rn(Bytes(value, width), width) == value
  {
    WidthIsExact(value);
    Pow256Monotone(CalcBytesNeededByInt(value), width);
    ReadBack(value, width);
    RnIsValue(Bytes(value, width), width);
    assert Bytes(value, width)[..width] == Bytes(value, width);
  }
}
