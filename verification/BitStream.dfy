/** Bit streams, least significant bit first, and their grouping into digits. */
module BitStream {
  import opened Bits

  /** The number a stream spells. */
  function Num(bits: seq<bool>): nat {
    if bits == [] then 0 else (if bits[0] then 1 else 0) + 2 * Num(bits[1..])
  }

  /** The lowest `n` bits of a number. */
  function BitsOf(v: nat, n: nat): (bits: seq<bool>)
    ensures |bits| == n
  {
    if n == 0 then [] else [v % 2 == 1] + BitsOf(v / 2, n - 1)
  }

  lemma Concatenated<T>(a: seq<T>, b: seq<T>)
    ensures (a + b)[..|a|] == a && (a + b)[|a|..] == b
  {
  }

  lemma Reassociate<T>(a: seq<T>, b: seq<T>, c: seq<T>)
    ensures (a + b) + c == a + (b + c)
  {
  }

  // ---- Machine operations on words ----

  /** `v << n` */
  function Shl(v: nat, n: nat): nat {
    if n == 0 then v else 2 * Shl(v, n - 1)
  }

  lemma ShlZero(n: nat)
    ensures Shl(0, n) == 0
  {
  }

  /** `v >> n` */
  function Shr(v: nat, n: nat): nat {
    if n == 0 then v else Shr(v / 2, n - 1)
  }

  /** `v & ((1 << n) - 1)` */
  function Low(v: nat, n: nat): nat {
    if n == 0 then 0 else v % 2 + 2 * Low(v / 2, n - 1)
  }

  /** `x | y` */
  function Or(x: nat, y: nat): nat
    decreases x + y
  {
    if x == 0 && y == 0 then 0
    else (if x % 2 == 1 || y % 2 == 1 then 1 else 0) + 2 * Or(x / 2, y / 2)
  }

  /** The value of a word of `w` bits is below `Pow2(w)`: what is above is lost. */
  lemma LowIsIdentity(v: nat, n: nat)
    requires v < Pow2(n)
    ensures Low(v, n) == v
  {
    if n > 0 {
      LowIsIdentity(v / 2, n - 1);
    }
  }

  lemma ShlIsProduct(v: nat, n: nat)
    ensures Shl(v, n) == v * Pow2(n)
  {
    if n > 0 {
      ShlIsProduct(v, n - 1);
      assert v * Pow2(n) == 2 * (v * Pow2(n - 1));
    }
  }

  lemma {:induction false} OrDisjoint(x: nat, y: nat, k: nat)
    requires x < Pow2(k)
    ensures Or(x, Shl(y, k)) == x + Shl(y, k)
    decreases k
  {
    if k == 0 {
      OrZero(y);
    } else {
      OrDisjoint(x / 2, y, k - 1);
      OrEven(x, Shl(y, k - 1));
    }
  }

  lemma OrZero(y: nat)
    ensures Or(0, y) == y
  {
  }

  lemma OrEven(x: nat, z: nat)
    ensures Or(x, 2 * z) == x % 2 + 2 * Or(x / 2, z)
  {
  }

  // ---- Numbers and streams ----

  lemma NumHalves(bits: seq<bool>)
    requires bits != []
    ensures Num(bits) / 2 == Num(bits[1..]) && (Num(bits) % 2 == 1) == bits[0]
  {
  }

  lemma NumBound(bits: seq<bool>)
    ensures Num(bits) < Pow2(|bits|)
  {
    if bits != [] {
      NumBound(bits[1..]);
    }
  }

  lemma {:induction false} BitsOfNum(bits: seq<bool>)
    ensures BitsOf(Num(bits), |bits|) == bits
  {
    if bits != [] {
      NumHalves(bits);
      BitsOfNum(bits[1..]);
      assert bits == [bits[0]] + bits[1..];
    }
  }

  lemma {:induction false} NumOfBits(v: nat, n: nat)
    ensures Num(BitsOf(v, n)) == Low(v, n)
  {
    if n > 0 {
      NumOfBits(v / 2, n - 1);
    }
  }

  lemma {:induction false} NumAppend(a: seq<bool>, b: seq<bool>)
    ensures Num(a + b) == Num(a) + Shl(Num(b), |a|)
  {
    if a == [] {
      assert a + b == b;
    } else {
      NumAppend(a[1..], b);
      assert (a + b)[1..] == a[1..] + b;
    }
  }

  lemma {:induction false} NumSplit(bits: seq<bool>, k: nat)
    requires k <= |bits|
    ensures Low(Num(bits), k) == Num(bits[..k]) && Shr(Num(bits), k) == Num(bits[k..])
  {
    if k > 0 {
      NumHalves(bits);
      NumSplit(bits[1..], k - 1);
      assert bits[..k][1..] == bits[1..][..k - 1];
      assert bits[1..][k - 1..] == bits[k..];
    }
  }

  function Zeros(n: nat): (bits: seq<bool>)
    ensures |bits| == n && forall i :: 0 <= i < n ==> !bits[i]
  {
    seq(n, _ => false)
  }

  lemma {:induction false} NumWithZeros(bits: seq<bool>, n: nat)
    ensures Num(bits + Zeros(n)) == Num(bits)
  {
    if bits == [] {
      assert bits + Zeros(n) == Zeros(n);
      NumZeros(n);
    } else {
      assert (bits + Zeros(n))[1..] == bits[1..] + Zeros(n);
      NumWithZeros(bits[1..], n);
    }
  }

  lemma NumZeros(n: nat)
    ensures Num(Zeros(n)) == 0
  {
    if n > 0 {
      assert Zeros(n)[1..] == Zeros(n - 1);
      NumZeros(n - 1);
    }
  }

  lemma BitsOfZero(n: nat)
    ensures BitsOf(0, n) == Zeros(n)
  {
  }

  // ---- Digits of k bits ----

  /** `n` bits are whole groups of `k`. */
  ghost predicate Whole(n: nat, k: nat)
    requires k > 0
  {
    n == 0 || (n >= k && Whole(n - k, k))
  }

  /** Groups of `k` bits; the last one is filled up with zeros. */
  function Pack(bits: seq<bool>, k: nat): (digits: seq<nat>)
    requires k > 0
  {
    if bits == [] then []
    else if |bits| <= k then [Num(bits)]
    else [Num(bits[..k])] + Pack(bits[k..], k)
  }

  function Unpack(digits: seq<nat>, k: nat): (bits: seq<bool>) {
    if digits == [] then [] else BitsOf(digits[0], k) + Unpack(digits[1..], k)
  }

  lemma UnpackAppend(a: seq<nat>, b: seq<nat>, k: nat)
    ensures Unpack(a + b, k) == Unpack(a, k) + Unpack(b, k)
  {
    if a == [] {
      assert a + b == b;
    } else {
      assert (a + b)[1..] == a[1..] + b;
      UnpackAppend(a[1..], b, k);
    }
  }

  lemma BitsOfFilled(bits: seq<bool>, k: nat)
    requires |bits| <= k
    ensures BitsOf(Num(bits), k) == bits + Zeros(k - |bits|)
  {
    NumWithZeros(bits, k - |bits|);
    BitsOfNum(bits + Zeros(k - |bits|));
  }

  /** Unpacking returns the stream, followed by the fill. */
  lemma {:induction false} UnpackPack(bits: seq<bool>, k: nat)
    requires k > 0
    ensures bits <= Unpack(Pack(bits, k), k)
    decreases |bits|
  {
    var digits := Pack(bits, k);
    if bits == [] {
    } else if |bits| <= k {
      BitsOfFilled(bits, k);
      assert digits[1..] == [];
    } else {
      UnpackPack(bits[k..], k);
      BitsOfNum(bits[..k]);
      assert digits[1..] == Pack(bits[k..], k);
      assert bits == bits[..k] + bits[k..];
    }
  }

  /** Streams of one length are told apart by their digits. */
  lemma PackInjective(a: seq<bool>, b: seq<bool>, k: nat)
    requires k > 0 && |a| == |b| && Pack(a, k) == Pack(b, k)
    ensures a == b
  {
    UnpackPack(a, k);
    UnpackPack(b, k);
  }

  lemma {:induction false} PackBound(bits: seq<bool>, k: nat)
    requires k > 0
    ensures forall i :: 0 <= i < |Pack(bits, k)| ==> Pack(bits, k)[i] < Pow2(k)
    decreases |bits|
  {
    if bits == [] {
    } else if |bits| <= k {
      NumBound(bits);
      Pow2Monotone(|bits|, k);
    } else {
      NumBound(bits[..k]);
      PackBound(bits[k..], k);
    }
  }

  lemma PackPrepend(group: seq<bool>, rest: seq<bool>, k: nat)
    requires |group| == k > 0
    ensures Pack(group + rest, k) == [Num(group)] + Pack(rest, k)
  {
    Concatenated(group, rest);
    if rest == [] {
      assert group + rest == group;
    }
  }

  /** Whole groups pack independently of what follows. */
  lemma {:induction false} PackAppend(a: seq<bool>, b: seq<bool>, k: nat)
    requires k > 0 && Whole(|a|, k)
    ensures Pack(a + b, k) == Pack(a, k) + Pack(b, k)
    decreases |a|
  {
    if a == [] {
      assert a + b == b;
    } else {
      var group, rest := a[..k], a[k..];
      PackAppend(rest, b, k);
      assert a == group + rest;
      PackPrepend(group, rest, k);
      Reassociate(group, rest, b);
      PackPrepend(group, rest + b, k);
    }
  }

  /** Filling the last group up with zeros changes no digit. */
  lemma {:induction false} PackFill(bits: seq<bool>, k: nat, fill: nat)
    requires k > 0 && fill < k && Whole(|bits| + fill, k)
    ensures Pack(bits + Zeros(fill), k) == Pack(bits, k)
    decreases |bits|
  {
    if bits == [] {
      assert bits + Zeros(fill) == bits;
    } else if |bits| + fill == k {
      NumWithZeros(bits, fill);
    } else {
      PackFill(bits[k..], k, fill);
      var padded := bits + Zeros(fill);
      assert padded[..k] == bits[..k];
      assert padded[k..] == bits[k..] + Zeros(fill);
    }
  }
}
