/** The token loop of DoParse in backend/parser.php: a shunting yard, and what it emits for
    every well-formed token list. */
module Parsing {
  import opened BitStream
  import opened Formulas

  /** opPARENS, or an operator waiting for its right operand. */
  datatype Entry = Parens | Waiting(op: Op)

  datatype Yard = Yard(output: seq<Item<string>>, stack: seq<Entry>)

  predicate Stays(top: Entry, op: Op) {
    top.Parens? || Precedence(top.op) < Precedence(op) || (Precedence(top.op) == Precedence(op) && op == NOT)
  }

  /** Moves the operators that bind at least as tightly from the stack to the output. */
  function PopFor(y: Yard, op: Op): Yard
    decreases |y.stack|
  {
    if y.stack == [] then y
    else
      var top := y.stack[|y.stack| - 1];
      if Stays(top, op) then y else PopFor(Yard(y.output + [Apply(top.op)], y.stack[..|y.stack| - 1]), op)
  }

  /** Moves the operators down to the nearest parenthesis, which is dropped. */
  function PopToParens(y: Yard): Yard
    requires Parens in y.stack
    decreases |y.stack|
  {
    var top, rest := y.stack[|y.stack| - 1], y.stack[..|y.stack| - 1];
    if top.Parens? then Yard(y.output, rest)
    else
      assert y.stack == rest + [top];
      PopToParens(Yard(y.output + [Apply(top.op)], rest))
  }

  predicate Possible(y: Yard, token: Token) {
    token == Close ==> Parens in y.stack
  }

  function Step(y: Yard, token: Token): Yard
    requires Possible(y, token)
  {
    match token
    case Operator(op) => var popped := PopFor(y, op); Yard(popped.output, popped.stack + [Waiting(op)])
    case Open => Yard(y.output, y.stack + [Parens])
    case Close => PopToParens(y)
    case Digit(value) => Yard(y.output + [Constant(value)], y.stack)
    case Name(name) => Yard(y.output + [Variable(name)], y.stack)
  }

  /** No closing parenthesis comes without an open one. */
  ghost predicate Steps(y: Yard, tokens: seq<Token>)
    decreases |tokens|
  {
    tokens == [] || (Possible(y, tokens[0]) && Steps(Step(y, tokens[0]), tokens[1..]))
  }

  ghost function Run(y: Yard, tokens: seq<Token>): Yard
    requires Steps(y, tokens)
    decreases |tokens|
  {
    if tokens == [] then y else Run(Step(y, tokens[0]), tokens[1..])
  }

  /** The operators left at the end; open parentheses are dropped. */
  function Drain(y: Yard): seq<Item<string>>
    decreases |y.stack|
  {
    if y.stack == [] then y.output
    else
      var top, rest := y.stack[|y.stack| - 1], y.stack[..|y.stack| - 1];
      Drain(Yard(if top.Parens? then y.output else y.output + [Apply(top.op)], rest))
  }

  function OpenCount(stack: seq<Entry>): nat {
    if stack == [] then 0
    else OpenCount(stack[..|stack| - 1]) + if stack[|stack| - 1].Parens? then 1 else 0
  }

  ghost function Parsed(tokens: seq<Token>): seq<Item<string>>
    requires Steps(Yard([], []), tokens)
  {
    Drain(Run(Yard([], []), tokens))
  }

  // ---- What it emits for a formula ----

  /** The part of the postfix list that is out when the last token has been read. */
  function Front(e: Expr): seq<Item<string>> {
    match e
    case Neg(arg) => Front(arg)
    case Bin(_, left, right) => Postfix(left) + Front(right)
    case _ => Postfix(e)
  }

  /** The operators then still waiting. */
  function Spine(e: Expr): seq<Entry> {
    match e
    case Neg(arg) => [Waiting(NOT)] + Spine(arg)
    case Bin(op, _, right) => [Waiting(op)] + Spine(right)
    case _ => []
  }

  function Released(stack: seq<Entry>): seq<Item<string>> {
    if stack == [] then []
    else
      var top := stack[|stack| - 1];
      (if top.Parens? then [] else [Apply(top.op)]) + Released(stack[..|stack| - 1])
  }

  lemma {:induction false} ReleasedAppend(a: seq<Entry>, b: seq<Entry>)
    ensures Released(a + b) == Released(b) + Released(a)
    decreases |b|
  {
    if b == [] {
      assert a + b == a;
    } else {
      var top, rest := b[|b| - 1], b[..|b| - 1];
      ReleasedAppend(a, rest);
      assert (a + b)[..|a + b| - 1] == a + rest;
      Reassociate(if top.Parens? then [] else [Apply(top.op)], Released(rest), Released(a));
    }
  }

  lemma {:induction false} FrontAndSpine(e: Expr)
    ensures Front(e) + Released(Spine(e)) == Postfix(e)
  {
    match e
    case Neg(arg) =>
      FrontAndSpine(arg);
      ReleasedAppend([Waiting(NOT)], Spine(arg));
      assert Released([Waiting(NOT)]) == [Apply(NOT)];
      Reassociate(Front(arg), Released(Spine(arg)), [Apply(NOT)]);
    case Bin(op, left, right) =>
      FrontAndSpine(right);
      ReleasedAppend([Waiting(op)], Spine(right));
      assert Released([Waiting(op)]) == [Apply(op)];
      Reassociate(Postfix(left), Front(right), Released(Spine(right)) + [Apply(op)]);
      Reassociate(Front(right), Released(Spine(right)), [Apply(op)]);
      Reassociate(Postfix(left), Postfix(right), [Apply(op)]);
    case _ =>
      assert Postfix(e) + [] == Postfix(e);
  }

  lemma {:induction false} SpineIsTight(e: Expr, i: nat)
    requires Shaped(e) && i < |Spine(e)|
    ensures Spine(e)[i].Waiting? && Precedence(Spine(e)[i].op) >= Tightness(e)
  {
    match e
    case Neg(arg) =>
      if i > 0 {
        SpineIsTight(arg, i - 1);
      }
    case Bin(op, _, right) =>
      if i > 0 {
        SpineIsTight(right, i - 1);
      }
    case _ =>
  }

  /** The operators of a tight stack part all go for a looser operator. */
  lemma {:induction false} PopTight(y: Yard, tight: seq<Entry>, op: Op)
    requires op != NOT && forall i :: 0 <= i < |tight| ==> tight[i].Waiting? && Precedence(tight[i].op) >= Precedence(op)
    ensures PopFor(Yard(y.output, y.stack + tight), op) == PopFor(Yard(y.output + Released(tight), y.stack), op)
    decreases |tight|
  {
    if tight == [] {
      assert y.stack + tight == y.stack && y.output + [] == y.output;
    } else {
      var top, rest := tight[|tight| - 1], tight[..|tight| - 1];
      assert (y.stack + tight)[..|y.stack + tight| - 1] == y.stack + rest;
      PopTight(Yard(y.output + [Apply(top.op)], y.stack), rest, op);
      Reassociate(y.output, [Apply(top.op)], Released(rest));
    }
  }

  /** A parenthesis on top of which only operators wait. */
  lemma {:induction false} PopParenthesised(output: seq<Item<string>>, stack: seq<Entry>, inner: seq<Entry>)
    requires forall i :: 0 <= i < |inner| ==> inner[i].Waiting?
    ensures Parens in stack + [Parens] + inner
    ensures PopToParens(Yard(output, stack + [Parens] + inner)) == Yard(output + Released(inner), stack)
    decreases |inner|
  {
    var all := stack + [Parens] + inner;
    assert all[|stack|] == Parens;
    if inner == [] {
      assert all == stack + [Parens] && all[..|all| - 1] == stack && output + [] == output;
    } else {
      var top, rest := inner[|inner| - 1], inner[..|inner| - 1];
      assert all[..|all| - 1] == stack + [Parens] + rest;
      PopParenthesised(output + [Apply(top.op)], stack, rest);
      Reassociate(output, [Apply(top.op)], Released(rest));
    }
  }

  lemma {:induction false} StepsAppend(y: Yard, a: seq<Token>, b: seq<Token>)
    requires Steps(y, a) && Steps(Run(y, a), b)
    ensures Steps(y, a + b) && Run(y, a + b) == Run(Run(y, a), b)
    decreases |a|
  {
    if a == [] {
      assert a + b == b;
    } else {
      StepsAppend(Step(y, a[0]), a[1..], b);
      assert (a + b)[1..] == a[1..] + b;
    }
  }

  lemma StepOnce(y: Yard, token: Token)
    requires Possible(y, token)
    ensures Steps(y, [token]) && Run(y, [token]) == Step(y, token)
  {
    assert Steps(Step(y, token), []);
    assert [token][1..] == [];
  }

  lemma StepFirst(y: Yard, token: Token, rest: seq<Token>)
    requires Possible(y, token) && Steps(Step(y, token), rest)
    ensures Steps(y, [token] + rest) && Run(y, [token] + rest) == Run(Step(y, token), rest)
  {
    assert ([token] + rest)[1..] == rest;
  }

  /** What stands on the stack does not come out because of the formula. */
  ghost predicate Admits(stack: seq<Entry>, e: Expr) {
    stack != [] && e.Bin? ==> Stays(stack[|stack| - 1], e.op)
  }

  /** Reading a formula puts its front on the output and its spine on the stack. */
  lemma {:induction false} ReadFormula(y: Yard, e: Expr)
    requires Shaped(e) && Admits(y.stack, e)
    ensures Steps(y, Tokens(e)) && Run(y, Tokens(e)) == Yard(y.output + Front(e), y.stack + Spine(e))
    decreases e
  {
    match e
    case Lit(value) =>
      StepOnce(y, Digit(value));
      assert y.stack + [] == y.stack;
    case Var(name) =>
      StepOnce(y, Name(name));
      assert y.stack + [] == y.stack;
    case Neg(arg) => ReadNegation(y, arg);
    case Bin(op, left, right) => ReadBinary(y, op, left, right);
    case Paren(inner) => ReadParenthesised(y, inner);
  }

  lemma ReadNegation(y: Yard, arg: Expr)
    requires Shaped(arg) && Tightness(arg) >= 8
    ensures Steps(y, [Operator(NOT)] + Tokens(arg))
    ensures Run(y, [Operator(NOT)] + Tokens(arg)) == Yard(y.output + Front(arg), y.stack + ([Waiting(NOT)] + Spine(arg)))
    decreases Neg(arg), 0
  {
    var y1 := Yard(y.output, y.stack + [Waiting(NOT)]);
    assert Step(y, Operator(NOT)) == y1;
    assert !arg.Bin?;
    ReadFormula(y1, arg);
    StepFirst(y, Operator(NOT), Tokens(arg));
    Reassociate(y.stack, [Waiting(NOT)], Spine(arg));
  }

  lemma ReadBinary(y: Yard, op: Op, left: Expr, right: Expr)
    requires Shaped(Bin(op, left, right)) && Admits(y.stack, Bin(op, left, right))
    ensures var e := Bin(op, left, right);
      Steps(y, Tokens(e)) && Run(y, Tokens(e)) == Yard(y.output + Front(e), y.stack + Spine(e))
    decreases Bin(op, left, right), 0
  {
    ReadFormula(y, left);
    OperatorReleases(y, op, left);
    var y2 := Yard(y.output + Postfix(left), y.stack + [Waiting(op)]);
    ReadFormula(y2, right);
    StepsAppend(y, Tokens(left) + [Operator(op)], Tokens(right));
    Reassociate(y.output, Postfix(left), Front(right));
    Reassociate(y.stack, [Waiting(op)], Spine(right));
  }

  /** The operator behind its left operand releases all operators of the operand, and no others. */
  lemma OperatorReleases(y: Yard, op: Op, left: Expr)
    requires Shaped(left) && op != NOT && Tightness(left) >= Precedence(op)
    requires y.stack == [] || Stays(y.stack[|y.stack| - 1], op)
    requires Steps(y, Tokens(left)) && Run(y, Tokens(left)) == Yard(y.output + Front(left), y.stack + Spine(left))
    ensures Steps(y, Tokens(left) + [Operator(op)])
    ensures Run(y, Tokens(left) + [Operator(op)]) == Yard(y.output + Postfix(left), y.stack + [Waiting(op)])
  {
    forall i | 0 <= i < |Spine(left)|
      ensures Spine(left)[i].Waiting? && Precedence(Spine(left)[i].op) >= Precedence(op)
    {
      SpineIsTight(left, i);
    }
    PopTight(Yard(y.output + Front(left), y.stack), Spine(left), op);
    Reassociate(y.output, Front(left), Released(Spine(left)));
    FrontAndSpine(left);
    var y1 := Yard(y.output + Front(left), y.stack + Spine(left));
    assert Step(y1, Operator(op)) == Yard(y.output + Postfix(left), y.stack + [Waiting(op)]);
    StepOnce(y1, Operator(op));
    StepsAppend(y, Tokens(left), [Operator(op)]);
  }

  lemma ReadParenthesised(y: Yard, inner: Expr)
    requires Shaped(inner)
    ensures var e := Paren(inner);
      Steps(y, Tokens(e)) && Run(y, Tokens(e)) == Yard(y.output + Front(e), y.stack + Spine(e))
    decreases Paren(inner), 0
  {
    var y1 := Yard(y.output, y.stack + [Parens]);
    ReadFormula(y1, inner);
    StepFirst(y, Open, Tokens(inner));
    var y2 := Yard(y.output + Front(inner), y.stack + [Parens] + Spine(inner));
    forall i | 0 <= i < |Spine(inner)|
      ensures Spine(inner)[i].Waiting?
    {
      SpineIsTight(inner, i);
    }
    PopParenthesised(y2.output, y.stack, Spine(inner));
    StepOnce(y2, Close);
    StepsAppend(y, [Open] + Tokens(inner), [Close]);
    Reassociate(y.output, Front(inner), Released(Spine(inner)));
    FrontAndSpine(inner);
    assert y.stack + [] == y.stack;
  }

  lemma {:induction false} DrainReleases(output: seq<Item<string>>, stack: seq<Entry>)
    ensures Drain(Yard(output, stack)) == output + Released(stack)
    decreases |stack|
  {
    if stack == [] {
      assert output + [] == output;
    } else {
      var top, rest := stack[|stack| - 1], stack[..|stack| - 1];
      var released := if top.Parens? then [] else [Apply(top.op)];
      DrainReleases(output + released, rest);
      assert output + [] == output;
      Reassociate(output, released, Released(rest));
    }
  }

  /** DoParse emits the postfix list of the formula. */
  lemma ParsesFormula(e: Expr)
    requires Shaped(e)
    ensures Steps(Yard([], []), Tokens(e)) && Parsed(Tokens(e)) == Postfix(e)
    ensures OpenCount(Run(Yard([], []), Tokens(e)).stack) == 0
  {
    var start := Yard([], []);
    ReadFormula(start, e);
    assert [] + Front(e) == Front(e) && [] + Spine(e) == Spine(e);
    DrainReleases(Front(e), Spine(e));
    FrontAndSpine(e);
    SpineHasNoParens(e);
  }

  lemma {:induction false} NoParens(stack: seq<Entry>)
    requires forall i :: 0 <= i < |stack| ==> stack[i].Waiting?
    ensures OpenCount(stack) == 0
    decreases |stack|
  {
    if stack != [] {
      NoParens(stack[..|stack| - 1]);
    }
  }

  lemma SpineHasNoParens(e: Expr)
    requires Shaped(e)
    ensures OpenCount(Spine(e)) == 0
  {
    forall i | 0 <= i < |Spine(e)|
      ensures Spine(e)[i].Waiting?
    {
      SpineIsTight(e, i);
    }
    NoParens(Spine(e));
  }

  /** For every well-formed token list: the postfix list of the tree that precedences, left
      association and prefix NOT give it. */
  lemma ParsesWellFormed(tokens: seq<Token>) returns (e: Expr)
    requires WellFormed(tokens)
    ensures Shaped(e) && Tokens(e) == tokens
    ensures Steps(Yard([], []), tokens) && Parsed(tokens) == Postfix(e)
  {
    e := TreeExists(tokens);
    ParsesFormula(e);
  }

  // ---- Parentheses that are never closed ----

  lemma {:induction false} PopForKeepsOpen(y: Yard, op: Op)
    ensures OpenCount(PopFor(y, op).stack) == OpenCount(y.stack)
    decreases |y.stack|
  {
    if y.stack != [] && !Stays(y.stack[|y.stack| - 1], op) {
      PopForKeepsOpen(Yard(y.output + [Apply(y.stack[|y.stack| - 1].op)], y.stack[..|y.stack| - 1]), op);
    }
  }

  lemma {:induction false} PopToParensClosesOne(y: Yard)
    requires Parens in y.stack
    ensures OpenCount(PopToParens(y).stack) + 1 == OpenCount(y.stack)
    decreases |y.stack|
  {
    var top, rest := y.stack[|y.stack| - 1], y.stack[..|y.stack| - 1];
    if !top.Parens? {
      assert y.stack == rest + [top];
      PopToParensClosesOne(Yard(y.output + [Apply(top.op)], rest));
    }
  }

  /** The errors that DoParse counts are the parentheses that are opened and never closed. */
  lemma {:induction false} UnclosedAreCounted(y: Yard, tokens: seq<Token>)
    requires Steps(y, tokens)
    ensures OpenCount(Run(y, tokens).stack) + multiset(tokens)[Close] == OpenCount(y.stack) + multiset(tokens)[Open]
    decreases |tokens|
  {
    if tokens != [] {
      var next := Step(y, tokens[0]);
      UnclosedAreCounted(next, tokens[1..]);
      assert tokens == [tokens[0]] + tokens[1..];
      match tokens[0]
      case Operator(op) =>
        PopForKeepsOpen(y, op);
        assert next.stack[..|next.stack| - 1] == PopFor(y, op).stack;
      case Open => assert next.stack[..|next.stack| - 1] == y.stack;
      case Close => PopToParensClosesOne(y);
      case _ =>
    }
  }
}
