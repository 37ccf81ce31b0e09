/** DoEvaluate in backend/parser.php: postfix lists are evaluated on a stack of bits packed into
    one 64-bit integer. */
module Evaluating {
  import opened Bits
  import opened BitStream
  import opened Formulas
  import opened Phrases
  import opened Integers

  /** `w << 1` */
  function Left(w: Word): Word {
    ShiftLeft(w, 1)
  }

  /** `w >> 1` */
  function Right(w: Word): Word {
    ShiftRight(w, 1)
  }

  /** One entry of a postfix list, in row `l`. */
  function Perform(stack: Word, code: Code, l: nat): Word {
    var a, b := stack[0], stack[1];
    match code
    case Constant(false) => Left(stack)
    case Constant(true) => BitOr(Left(stack), Unit(true))
    case Variable(v) => BitOr(Left(stack), Unit(Bit(l, v)))
    case Apply(NOT) => BitXor(stack, Unit(true))
    case Apply(AND) => BitOr(Left(Right(Right(stack))), Unit(a && b))
    case Apply(NAND) => BitOr(Left(Right(Right(stack))), BitXor(Unit(a && b), Unit(true)))
    case Apply(OR) => BitOr(Right(stack), Unit(a))
    case Apply(NOR) => BitXor(BitOr(Right(stack), Unit(a)), Unit(true))
    case Apply(XOR) => BitXor(Right(stack), Unit(a))
    case Apply(XNOR) => BitXor(BitXor(Right(stack), Unit(a)), Unit(true))
    case Apply(IMP) => BitOr(Left(Right(Right(stack))), Unit(b ==> a))
  }

  function PerformAll(stack: Word, codes: seq<Code>, l: nat): Word
    decreases |codes|
  {
    if codes == [] then stack else PerformAll(Perform(stack, codes[0], l), codes[1..], l)
  }

  /** The bit that DoEvaluate puts into the table. */
  function Evaluated(codes: seq<Code>, l: nat): bool {
    PerformAll(Unit(false), codes, l)[0]
  }

  // ---- The stack it stands for ----

  predicate Enough(height: nat, code: Code) {
    code.Apply? ==> height >= if code.op == NOT then 1 else 2
  }

  /** One entry on a list of values, the top of the stack first. */
  function Act(values: seq<bool>, code: Code, l: nat): seq<bool>
    requires Enough(|values|, code)
  {
    match code
    case Constant(value) => [value] + values
    case Variable(v) => [Bit(l, v)] + values
    case Apply(op) =>
      if op == NOT then [!values[0]] + values[1..] else [Combine(op, values[1], values[0])] + values[2..]
  }

  function ActAll(values: seq<bool>, codes: seq<Code>, l: nat): (final: seq<bool>)
    requires IsPostfix(codes, |values|)
    ensures |final| == 1
    decreases |codes|
  {
    if codes == [] then values else ActAll(Act(values, codes[0], l), codes[1..], l)
  }

  /** How high the stack grows. */
  function Highest<V>(codes: seq<Item<V>>, height: nat): (h: nat)
    requires IsPostfix(codes, height)
    ensures h >= height
    decreases |codes|
  {
    if codes == [] then height
    else if codes[0].Apply? && codes[0].op == NOT then Highest(codes[1..], height)
    else if codes[0].Apply? then (var h := Highest(codes[1..], height - 1); if h < height then height else h)
    else Highest(codes[1..], height + 1)
  }

  /** The low bits of the word are the stack. */
  ghost predicate Packed(stack: Word, values: seq<bool>) {
    values <= stack
  }

  lemma PerformPushes(stack: Word, values: seq<bool>, code: Code, l: nat)
    requires Packed(stack, values) && !code.Apply? && |values| < WORD_SIZE
    ensures Packed(Perform(stack, code, l), Act(values, code, l))
  {
    var next, expected := Perform(stack, code, l), Act(values, code, l);
    forall i | 0 <= i < |expected|
      ensures next[i] == expected[i]
    {
    }
  }

  /** An operator replaces the topmost values and moves the rest. */
  lemma PerformMoves(stack: Word, op: Op, l: nat, i: nat)
    requires op == NOT ==> 0 < i < WORD_SIZE
    requires op != NOT ==> 0 < i < WORD_SIZE - 1
    ensures Perform(stack, Apply(op), l)[i] == stack[if op == NOT then i else i + 1]
  {
  }

  lemma PerformCombines(stack: Word, op: Op, l: nat)
    ensures Perform(stack, Apply(op), l)[0] == Combine(op, stack[1], stack[0])
  {
  }

  lemma PerformApplies(stack: Word, values: seq<bool>, op: Op, l: nat)
    requires Packed(stack, values) && Enough(|values|, Apply(op))
    ensures Packed(Perform(stack, Apply(op), l), Act(values, Apply(op), l))
  {
    var next, expected := Perform(stack, Apply(op), l), Act(values, Apply(op), l);
    forall i | 0 <= i < |expected|
      ensures next[i] == expected[i]
    {
      if i == 0 {
        PerformCombines(stack, op, l);
      } else {
        PerformMoves(stack, op, l, i);
      }
    }
  }

  /** While the stack fits the word, the word is the stack. */
  lemma {:induction false} WordFollowsStack(stack: Word, values: seq<bool>, codes: seq<Code>, l: nat)
    requires Packed(stack, values) && IsPostfix(codes, |values|) && Highest(codes, |values|) <= WORD_SIZE
    ensures Packed(PerformAll(stack, codes, l), ActAll(values, codes, l))
    decreases |codes|
  {
    if codes != [] {
      if codes[0].Apply? {
        PerformApplies(stack, values, codes[0].op, l);
      } else {
        PerformPushes(stack, values, codes[0], l);
      }
      WordFollowsStack(Perform(stack, codes[0], l), Act(values, codes[0], l), codes[1..], l);
    }
  }

  /** The value of a postfix list in a row. */
  function Denoted(codes: seq<Code>, l: nat): bool
    requires IsPostfix(codes, 0)
  {
    ActAll([], codes, l)[0]
  }

  // ---- Exactly which stack depths are safe ----

  ghost predicate RightUpTo(n: nat) {
    forall codes: seq<Code>, l: nat :: IsPostfix(codes, 0) && Highest(codes, 0) <= n ==> Evaluated(codes, l) == Denoted(codes, l)
  }

  function Repeat(code: Code, n: nat): (codes: seq<Code>)
    ensures |codes| == n
  {
    seq(n, i => code)
  }

  lemma RepeatFirst(code: Code, n: nat)
    requires n > 0
    ensures Repeat(code, n)[0] == code && Repeat(code, n)[1..] == Repeat(code, n - 1)
  {
  }

  /** One, `n` zeros, and `n` ORs that reduce them to a single bit. */
  function Tower(n: nat): seq<Code> {
    [Constant(true)] + (Repeat(Constant(false), n) + Repeat(Apply(OR), n))
  }

  lemma {:induction false} OrsReduce(values: seq<bool>, l: nat)
    requires values != []
    ensures var ors := Repeat(Apply(OR), |values| - 1);
      IsPostfix(ors, |values|) && Highest(ors, |values|) == |values|
      && ActAll(values, ors, l) == [true in values]
    decreases |values|
  {
    var ors := Repeat(Apply(OR), |values| - 1);
    if |values| == 1 {
      assert ors == [] && values == [values[0]];
      assert (true in values) == values[0];
      assert [true in values] == values;
    } else {
      RepeatFirst(Apply(OR), |values| - 1);
      var next := Act(values, Apply(OR), l);
      assert values == [values[0], values[1]] + values[2..];
      OrsReduce(next, l);
    }
  }

  lemma ZeroPushed(values: seq<bool>, codes: seq<Code>, tail: seq<Code>, l: nat)
    requires codes == [Constant(false)] + tail
    ensures IsPostfix(codes, |values|) == IsPostfix(tail, |values| + 1)
    ensures IsPostfix(tail, |values| + 1) ==> ActAll(values, codes, l) == ActAll([false] + values, tail, l)
    ensures IsPostfix(tail, |values| + 1) ==> Highest(codes, |values|) == Highest(tail, |values| + 1)
  {
    assert codes[1..] == tail;
  }

  lemma {:induction false} ZerosPush(values: seq<bool>, n: nat, rest: seq<Code>, l: nat)
    requires IsPostfix(rest, |values| + n)
    ensures var codes := Repeat(Constant(false), n) + rest;
      IsPostfix(codes, |values|) && ActAll(values, codes, l) == ActAll(Zeros(n) + values, rest, l)
      && Highest(codes, |values|) == Highest(rest, |values| + n)
    decreases n
  {
    var codes := Repeat(Constant(false), n) + rest;
    if n == 0 {
      assert codes == rest && Zeros(0) + values == values;
    } else {
      var tail := Repeat(Constant(false), n - 1) + rest;
      RepeatFirst(Constant(false), n);
      assert codes == [Constant(false)] + tail;
      assert Zeros(n - 1) + ([false] + values) == Zeros(n) + values;
      hide *;
      ZerosPush([false] + values, n - 1, rest, l);
      ZeroPushed(values, codes, tail, l);
    }
  }

  lemma TowerIsOne(n: nat, l: nat)
    ensures IsPostfix(Tower(n), 0) && Highest(Tower(n), 0) == n + 1 && Denoted(Tower(n), l)
  {
    var ors := Repeat(Apply(OR), n);
    OrsReduce(Zeros(n) + [true], l);
    assert (Zeros(n) + [true])[n];
    ZerosPush([true], n, ors, l);
    assert Tower(n)[1..] == Repeat(Constant(false), n) + ors && Act([], Constant(true), l) == [true];
  }

  lemma {:induction false} PerformAppend(stack: Word, a: seq<Code>, b: seq<Code>, l: nat)
    ensures PerformAll(stack, a + b, l) == PerformAll(PerformAll(stack, a, l), b, l)
    decreases |a|
  {
    if a == [] {
      assert a + b == b;
    } else {
      assert (a + b)[1..] == a[1..] + b;
      PerformAppend(Perform(stack, a[0], l), a[1..], b, l);
    }
  }

  /** A word whose `n` lowest bits are clear. */
  ghost predicate LowClear(stack: Word, n: nat) {
    n <= WORD_SIZE && forall i :: 0 <= i < n ==> !stack[i]
  }

  lemma {:induction false} ZerosClear(stack: Word, k: nat, n: nat, l: nat)
    requires LowClear(stack, k) && k + n <= WORD_SIZE
    ensures LowClear(PerformAll(stack, Repeat(Constant(false), n), l), k + n)
    decreases n
  {
    if n > 0 {
      RepeatFirst(Constant(false), n);
      ZerosClear(Left(stack), k + 1, n - 1, l);
    }
  }

  lemma {:induction false} OrsOfNothing(stack: Word, n: nat, l: nat)
    requires LowClear(stack, WORD_SIZE)
    ensures !PerformAll(stack, Repeat(Apply(OR), n), l)[0]
    decreases n
  {
    if n > 0 {
      RepeatFirst(Apply(OR), n);
      OrsOfNothing(Perform(stack, Apply(OR), l), n - 1, l);
    }
  }

  /** One value more than the word has bits: the first value is lost. */
  lemma TowerOverflows(l: nat)
    ensures !Evaluated(Tower(WORD_SIZE), l)
  {
    var zeros, ors := Repeat(Constant(false), WORD_SIZE), Repeat(Apply(OR), WORD_SIZE);
    var first := Perform(Unit(false), Constant(true), l);
    assert Tower(WORD_SIZE)[1..] == zeros + ors;
    PerformAppend(first, zeros, ors, l);
    ZerosClear(first, 0, WORD_SIZE, l);
    OrsOfNothing(PerformAll(first, zeros, l), WORD_SIZE, l);
  }

  /** The packed stack is right for all postfix lists up to a depth exactly if that depth is
      at most 64. */
  lemma DepthLimitIsExact(n: nat)
    ensures RightUpTo(n) <==> n <= WORD_SIZE
  {
    if n <= WORD_SIZE {
      forall codes: seq<Code>, l: nat | IsPostfix(codes, 0) && Highest(codes, 0) <= n
        ensures Evaluated(codes, l) == Denoted(codes, l)
      {
        WordFollowsStack(Unit(false), [], codes, l);
      }
    } else {
      TowerIsOne(WORD_SIZE, 0);
      TowerOverflows(0);
    }
  }

  // ---- The value is the value of the formula ----

  /** Row `l` assigns the variables these values. */
  ghost predicate Assigns(env: string -> bool, names: seq<string>, l: nat) {
    forall i :: 0 <= i < |names| ==> env(names[i]) == Bit(l, i)
  }

  lemma {:induction false} NamedIsPostfix(codes: seq<Code>, names: seq<string>, height: nat)
    requires AllKnown(codes, |names|)
    ensures IsPostfix(Named(codes, names), height) <==> IsPostfix(codes, height)
    decreases |codes|
  {
    if codes != [] {
      assert Named(codes, names)[1..] == Named(codes[1..], names);
      if IsPostfix(codes, height) || IsPostfix(Named(codes, names), height) {
        NamedIsPostfix(codes[1..], names,
                       if !codes[0].Apply? then height + 1 else if codes[0].op == NOT then height else height - 1);
      }
    }
  }

  /** The codes of a formula push its value. */
  lemma {:induction false} CodesPushMeaning(values: seq<bool>, e: Expr, codes: seq<Code>, rest: seq<Code>,
                                            names: seq<string>, env: string -> bool, l: nat)
    requires Shaped(e) && AllKnown(codes, |names|) && Named(codes, names) == Postfix(e) && Assigns(env, names, l)
    requires IsPostfix(rest, |values| + 1)
    ensures IsPostfix(codes + rest, |values|)
    ensures ActAll(values, codes + rest, l) == ActAll([Meaning(e, env)] + values, rest, l)
    decreases e, 1
  {
    match e
    case Lit(_) => AtomPushes(values, e, codes, rest, names, env, l);
    case Var(_) => AtomPushes(values, e, codes, rest, names, env, l);
    case Paren(inner) => CodesPushMeaning(values, inner, codes, rest, names, env, l);
    case Neg(arg) => NegationPushes(values, arg, codes, rest, names, env, l);
    case Bin(op, left, right) => BinaryPushes(values, op, left, right, codes, rest, names, env, l);
  }

  lemma NegationPushes(values: seq<bool>, arg: Expr, codes: seq<Code>, rest: seq<Code>,
                       names: seq<string>, env: string -> bool, l: nat)
    requires Shaped(Neg(arg)) && AllKnown(codes, |names|) && Named(codes, names) == Postfix(Neg(arg))
      && Assigns(env, names, l)
    requires IsPostfix(rest, |values| + 1)
    ensures IsPostfix(codes + rest, |values|)
    ensures ActAll(values, codes + rest, l) == ActAll([Meaning(Neg(arg), env)] + values, rest, l)
    decreases Neg(arg), 0
  {
    var front := SplitLast(codes, names, Postfix(arg), NOT);
    var more := [Apply(NOT)] + rest;
    assert more[1..] == rest;
    CodesPushMeaning(values, arg, front, more, names, env, l);
    Reassociate(front, [Apply(NOT)], rest);
    var pushed := [Meaning(arg, env)] + values;
    assert Act(pushed, Apply(NOT), l) == [!Meaning(arg, env)] + values;
  }

  lemma BinaryPushes(values: seq<bool>, op: Op, left: Expr, right: Expr, codes: seq<Code>, rest: seq<Code>,
                     names: seq<string>, env: string -> bool, l: nat)
    requires Shaped(Bin(op, left, right)) && AllKnown(codes, |names|)
      && Named(codes, names) == Postfix(Bin(op, left, right)) && Assigns(env, names, l)
    requires IsPostfix(rest, |values| + 1)
    ensures IsPostfix(codes + rest, |values|)
    ensures ActAll(values, codes + rest, l) == ActAll([Meaning(Bin(op, left, right), env)] + values, rest, l)
    decreases Bin(op, left, right), 0
  {
    var a, b := SplitBinary(codes, names, op, left, right);
    var more := [Apply(op)] + rest;
    assert more[1..] == rest && codes + rest == a + (b + more);
    var x, y := Meaning(left, env), Meaning(right, env);
    CodesPushMeaning([x] + values, right, b, more, names, env, l);
    CodesPushMeaning(values, left, a, b + more, names, env, l);
    assert ([y] + ([x] + values))[2..] == values;
  }

  lemma AtomPushes(values: seq<bool>, e: Expr, codes: seq<Code>, rest: seq<Code>,
                   names: seq<string>, env: string -> bool, l: nat)
    requires e.Lit? || e.Var?
    requires AllKnown(codes, |names|) && Named(codes, names) == Postfix(e) && Assigns(env, names, l)
    requires IsPostfix(rest, |values| + 1)
    ensures IsPostfix(codes + rest, |values|)
    ensures ActAll(values, codes + rest, l) == ActAll([Meaning(e, env)] + values, rest, l)
  {
    assert Named(codes, names)[0] == ItemOf(codes[0], names);
    assert (codes + rest)[1..] == rest && (codes + rest)[0] == codes[0];
  }

  lemma SplitBinary(codes: seq<Code>, names: seq<string>, op: Op, left: Expr, right: Expr)
    returns (a: seq<Code>, b: seq<Code>)
    requires AllKnown(codes, |names|) && Named(codes, names) == Postfix(Bin(op, left, right))
    ensures AllKnown(a, |names|) && Named(a, names) == Postfix(left)
    ensures AllKnown(b, |names|) && Named(b, names) == Postfix(right)
    ensures codes == a + b + [Apply(op)]
  {
    var front := SplitLast(codes, names, Postfix(left) + Postfix(right), op);
    a, b := SplitTwo(front, names, Postfix(left), Postfix(right));
  }

  lemma SplitLast(codes: seq<Code>, names: seq<string>, items: seq<Item<string>>, op: Op) returns (front: seq<Code>)
    requires AllKnown(codes, |names|) && Named(codes, names) == items + [Apply(op)]
    ensures codes == front + [Apply(op)] && AllKnown(front, |names|) && Named(front, names) == items
  {
    var named := Named(codes, names);
    front := codes[..|items|];
    assert named[|items|] == Apply(op) == ItemOf(codes[|items|], names);
    assert Named(front, names) == named[..|items|];
  }

  lemma SplitTwo(codes: seq<Code>, names: seq<string>, a: seq<Item<string>>, b: seq<Item<string>>)
    returns (first: seq<Code>, second: seq<Code>)
    requires AllKnown(codes, |names|) && Named(codes, names) == a + b
    ensures codes == first + second && AllKnown(first, |names|) && AllKnown(second, |names|)
    ensures Named(first, names) == a && Named(second, names) == b
  {
    var named := Named(codes, names);
    first, second := codes[..|a|], codes[|a|..];
    assert Named(first, names) == named[..|a|];
    assert Named(second, names) == named[|a|..];
  }

  /** What DoEvaluate puts into row `l` for the codes of a formula is the formula's value. */
  lemma EvaluatesFormula(e: Expr, codes: seq<Code>, names: seq<string>, env: string -> bool, l: nat)
    requires Shaped(e) && AllKnown(codes, |names|) && Named(codes, names) == Postfix(e) && Assigns(env, names, l)
    ensures IsPostfix(codes, 0)
    ensures Highest(codes, 0) <= WORD_SIZE ==> Evaluated(codes, l) == Meaning(e, env)
  {
    CodesPushMeaning([], e, codes, [], names, env, l);
    assert codes + [] == codes;
    if Highest(codes, 0) <= WORD_SIZE {
      WordFollowsStack(Unit(false), [], codes, l);
    }
  }
}
