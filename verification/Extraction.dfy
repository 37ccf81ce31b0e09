/** Column extraction in nandcombinator.cc: the truth table of one gate, cut out of the
    per-row masks into 32-bit words. */
module Extraction {
  import opened Bits
  import opened BitStream
  import opened Networks
  import opened CanonicalKeys
  import opened OutputOrder
  import opened GateBuilder

  /** The column of gate `pos` in the rows of a record. */
  function MaskColumn(masks: seq<set<nat>>, pos: nat): (c: Column)
    ensures |c| == |masks| && forall t :: 0 <= t < |c| ==> c[t] == (pos in masks[t])
  {
    seq(|masks|, t requires 0 <= t < |masks| => pos in masks[t])
  }

  /** In a faithful record that is the column of the gate in its network. */
  lemma FaithfulColumn(record: Record, inputs: nat, gates: nat, g: nat)
    requires FaithfulRecord(record, inputs, gates) && g < gates
    ensures Topological(Renumbering.NetOf(record.gateInputs), inputs)
    ensures MaskColumn(record.gateOutputs, g) == GateColumn(Renumbering.NetOf(record.gateInputs), inputs, g)
  {
    var net := Renumbering.NetOf(record.gateInputs);
    var c, d := MaskColumn(record.gateOutputs, g), GateColumn(net, inputs, g);
    forall row | 0 <= row < |c|
      ensures c[row] == d[row]
    {
      assert record.gateOutputs[row] == RowMask(net, inputs, row);
    }
  }

  function GroupEnd(i: nat, size: nat): nat {
    if 32 * i + 32 <= size then 32 * i + 32 else size
  }

  /** Word `i` of a table. */
  lemma {:induction false} TableWord(bits: seq<bool>, i: nat)
    requires i < |Pack(bits, 32)|
    ensures 32 * i <= GroupEnd(i, |bits|) <= |bits| && Pack(bits, 32)[i] == Num(bits[32 * i..GroupEnd(i, |bits|)])
    decreases i
  {
    if |bits| <= 32 {
      assert bits[0..|bits|] == bits;
    } else if i > 0 {
      TableWord(bits[32..], i - 1);
      SliceOfTail(bits, 32, 32 * (i - 1), GroupEnd(i - 1, |bits| - 32));
    }
  }

  lemma SliceOfTail(bits: seq<bool>, k: nat, from: nat, to: nat)
    requires k <= |bits| && from <= to <= |bits| - k
    ensures bits[k..][from..to] == bits[k + from..k + to]
  {
  }

  /** The word after the last whole row of bits. */
  method ExtractWord(masks: seq<set<nat>>, pos: nat, word: nat) returns (w: nat)
    requires 32 * word < |masks|
    ensures w == Num(MaskColumn(masks, pos)[32 * word..GroupEnd(word, |masks|)])
  {
    ghost var c := MaskColumn(masks, pos);
    ghost var start, end := 32 * word, GroupEnd(word, |masks|);
    w := 0;
    var bit := 0;
    while bit < 32
      invariant bit <= 32
      invariant w == Num(c[start..if start + bit <= end then start + bit else end])
    {
      // the rows beyond the truth table are 0
      var row := word * 32 + bit;
      var b := if row < |masks| && pos in masks[row] then 1 else 0;
      ghost var last := if start + bit <= end then start + bit else end;
      AddBit(c, start, last, end, bit, b);
      w := Or(w, Shl(b, bit));
      bit := bit + 1;
    }
  }

  lemma AddBit(c: Column, start: nat, last: nat, end: nat, bit: nat, b: nat)
    requires start <= last <= end <= |c| && last == if start + bit <= end then start + bit else end
    requires b == if start + bit < end && c[start + bit] then 1 else 0
    ensures Or(Num(c[start..last]), Shl(b, bit)) == Num(c[start..if start + bit < end then start + bit + 1 else end])
  {
    var sofar := c[start..last];
    NumBound(sofar);
    Pow2Monotone(|sofar|, bit);
    OrDisjoint(Num(sofar), b, bit);
    if start + bit < end {
      NumAppend(sofar, [c[start + bit]]);
      assert c[start..start + bit + 1] == sofar + [c[start + bit]];
      assert Num([c[start + bit]]) == b;
    } else {
      ShlZero(bit);
    }
  }

  /** The words of the column of gate `pos`. */
  method ExtractTable(masks: seq<set<nat>>, pos: nat) returns (table: Words)
    ensures table == Table(MaskColumn(masks, pos))
  {
    ghost var c := MaskColumn(masks, pos);
    TableSize(c);
    table := [];
    var words := (|masks| + 31) / 32;
    var word := 0;
    while word < words
      invariant word <= words && table == Table(c)[..word]
    {
      TableWord(c, word);
      var w := ExtractWord(masks, pos, word);
      table := table + [w];
      word := word + 1;
    }
  }

  // ---- Reading a table back ----

  lemma {:induction false} LowShr(bits: seq<bool>, i: nat)
    requires i < |bits|
    ensures Low(Shr(Num(bits), i), 1) == if bits[i] then 1 else 0
  {
    NumHalves(bits);
    if i > 0 {
      LowShr(bits[1..], i - 1);
    } else {
      assert Low(Num(bits), 1) == Num(bits) % 2 + 2 * Low(Num(bits) / 2, 0);
    }
  }

  /** `(r[pos/32] >> (pos%32)) & 1` is the table's bit `pos`. */
  lemma TableBit(c: Column, pos: nat)
    requires pos < |c|
    ensures pos / 32 < |Table(c)| && Low(Shr(Table(c)[pos / 32], pos % 32), 1) == if c[pos] then 1 else 0
  {
    TableSize(c);
    TableWord(c, pos / 32);
    var group := c[32 * (pos / 32)..GroupEnd(pos / 32, |c|)];
    assert group[pos % 32] == c[pos];
    LowShr(group, pos % 32);
  }

  /** A table of whole words is the column, 32 bits at a time. */
  lemma {:induction false} WholeTable(c: Column)
    requires Whole(|c|, 32)
    ensures Unpack(Table(c), 32) == c
    decreases |c|
  {
    if c != [] {
      PackStep(c, 32);
      WholeTable(c[32..]);
      BitsOfNum(c[..32]);
      assert c == c[..32] + c[32..];
    }
  }

  lemma PackStep(bits: seq<bool>, k: nat)
    requires 0 < k <= |bits|
    ensures Pack(bits, k) == [Num(bits[..k])] + Pack(bits[k..], k)
  {
    PackPrepend(bits[..k], bits[k..], k);
    assert bits == bits[..k] + bits[k..];
  }

  lemma {:induction false} WholeDouble(n: nat, k: nat)
    requires k > 0 && Whole(n, k)
    ensures Whole(2 * n, k)
    decreases n
  {
    if n > 0 {
      WholeDouble(n - k, k);
      assert Whole(2 * n - k, k);
    }
  }

  lemma WholeTables(inputs: nat)
    requires inputs >= 5
    ensures Pow2(inputs) >= 32 && Whole(Pow2(inputs), 32)
  {
    if inputs > 5 {
      WholeTables(inputs - 1);
      WholeDouble(Pow2(inputs - 1), 32);
    } else {
      assert Pow2(5) == 32;
    }
  }

  /** A truth table is either smaller than a word or made of whole words. */
  lemma RowsAndWords(inputs: nat)
    ensures Pow2(inputs) < 32 || (Whole(Pow2(inputs), 32) && Pow2(inputs) % 32 == 0)
    ensures inputs >= 5 <==> Pow2(inputs) >= 32
  {
    if inputs >= 5 {
      WholeTables(inputs);
      WholeIsMultiple(Pow2(inputs));
    } else {
      Pow2Monotone(inputs, 4);
      assert Pow2(4) == 16;
    }
  }

  lemma WholeIsMultiple(n: nat)
    requires Whole(n, 32)
    ensures n % 32 == 0
  {
    if n > 0 {
      WholeIsMultiple(n - 32);
    }
  }
}
