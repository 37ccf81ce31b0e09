/** PHP's integers, bit by bit: 64 bits in two's complement. */
module Integers {
  import opened Bits
  import opened BitStream

  const WORD_SIZE: nat := 64

  /** An integer, bit 0 first; bit 63 is the sign. */
  type Word = w: seq<bool> | |w| == WORD_SIZE witness seq(WORD_SIZE, i => false)

  /** A number's lowest 64 bits. */
  function FromNat(v: nat): Word {
    BitsOf(v, WORD_SIZE)
  }

  /** `w << n`: the topmost bits are lost. */
  function ShiftLeft(w: Word, n: nat): Word {
    if n <= WORD_SIZE then Zeros(n) + w[..WORD_SIZE - n] else Zeros(WORD_SIZE)
  }

  /** `w >> n`: the sign is kept. */
  function ShiftRight(w: Word, n: nat): Word {
    var sign := w[WORD_SIZE - 1];
    if n <= WORD_SIZE then w[n..] + seq(n, i => sign) else seq(WORD_SIZE, i => sign)
  }

  /** 0 or 1 as an integer */
  function Unit(b: bool): Word {
    [b] + seq(WORD_SIZE - 1, i => false)
  }

  function BitOr(x: Word, y: Word): Word {
    seq(WORD_SIZE, i requires 0 <= i < WORD_SIZE => x[i] || y[i])
  }

  function BitXor(x: Word, y: Word): Word {
    seq(WORD_SIZE, i requires 0 <= i < WORD_SIZE => x[i] != y[i])
  }

  /** Addition, from the lowest bit on. */
  function Added(x: seq<bool>, y: seq<bool>, carry: bool): (sum: seq<bool>)
    requires |x| == |y|
    ensures |sum| == |x|
  {
    if x == [] then []
    else
      var next := (x[0] && y[0]) || (carry && (x[0] || y[0]));
      [(x[0] != y[0]) != carry] + Added(x[1..], y[1..], next)
  }

  lemma {:induction false} AddedZeros(y: seq<bool>)
    ensures Added(Zeros(|y|), y, false) == y
  {
    if y != [] {
      assert Zeros(|y|)[1..] == Zeros(|y| - 1);
      AddedZeros(y[1..]);
      assert y == [y[0]] + y[1..];
    }
  }

  /** Adding bits above a number only puts them there. */
  lemma {:induction false} AddedAbove(low: seq<bool>, high: seq<bool>)
    ensures Added(low + Zeros(|high|), Zeros(|low|) + high, false) == low + high
    decreases |low|
  {
    if low == [] {
      AddedZeros(high);
      assert [] + Zeros(|high|) == Zeros(|high|) && Zeros(0) + high == high;
    } else {
      var x, y := low + Zeros(|high|), Zeros(|low|) + high;
      assert x[1..] == low[1..] + Zeros(|high|) && y[1..] == Zeros(|low| - 1) + high;
      AddedAbove(low[1..], high);
      assert low + high == [low[0]] + (low[1..] + high);
    }
  }

  /** The bits of a number that needs fewer. */
  lemma {:induction false} BitsAbove(v: nat, m: nat, n: nat)
    requires v < Pow2(m) && m <= n
    ensures BitsOf(v, n) == BitsOf(v, m) + Zeros(n - m)
    decreases m
  {
    if m == 0 {
      BitsOfZero(n);
    } else {
      BitsAbove(v / 2, m - 1, n - 1);
    }
  }

  /** Shifting a number behind others: as long as it fits, nothing is lost. */
  lemma ShiftedNumber(v: nat, n: nat, k: nat)
    requires v < Pow2(n) && k + n <= WORD_SIZE
    ensures ShiftLeft(FromNat(v), k) == Zeros(k) + BitsOf(v, n) + Zeros(WORD_SIZE - k - n)
  {
    BitsAbove(v, n, WORD_SIZE);
    var bits := BitsOf(v, n) + Zeros(WORD_SIZE - n);
    assert bits[..WORD_SIZE - k] == BitsOf(v, n) + Zeros(WORD_SIZE - k - n);
  }
}
