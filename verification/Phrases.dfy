/** Postfix lists as the Parser class keeps them: names are replaced by the numbers of the
    variables, and ParseOne renders a list back as text. */
module Phrases {
  import opened BitStream
  import opened Formulas
  import opened Parsing

  /** An entry of `operations`: variable number `v` is written -(v + 1). */
  type Code = Item<nat>

  predicate Known(code: Code, count: nat) {
    code.Variable? ==> code.v < count
  }

  predicate AllKnown(codes: seq<Code>, count: nat) {
    forall i :: 0 <= i < |codes| ==> Known(codes[i], count)
  }

  function ItemOf(code: Code, names: seq<string>): Item<string>
    requires Known(code, |names|)
  {
    match code
    case Constant(value) => Constant(value)
    case Apply(op) => Apply(op)
    case Variable(v) => Variable(names[v])
  }

  /** The list with the names put back. */
  function Named(codes: seq<Code>, names: seq<string>): (items: seq<Item<string>>)
    requires AllKnown(codes, |names|)
    ensures |items| == |codes|
  {
    seq(|codes|, i requires 0 <= i < |codes| => ItemOf(codes[i], names))
  }

  lemma NamedAppend(codes: seq<Code>, code: Code, names: seq<string>)
    requires AllKnown(codes, |names|) && Known(code, |names|)
    ensures AllKnown(codes + [code], |names|)
    ensures Named(codes + [code], names) == Named(codes, names) + [ItemOf(code, names)]
  {
  }

  lemma NamedGrows(codes: seq<Code>, names: seq<string>, more: seq<string>)
    requires AllKnown(codes, |names|) && names <= more
    ensures AllKnown(codes, |more|) && Named(codes, more) == Named(codes, names)
  {
  }

  /** Variables are numbered in the order in which they first occur. */
  function Numbered(names: seq<string>, tokens: seq<Token>): (all: seq<string>)
    ensures names <= all
    decreases |tokens|
  {
    if tokens == [] then names
    else Numbered(if tokens[0].Name? && tokens[0].name !in names then names + [tokens[0].name] else names, tokens[1..])
  }

  lemma {:induction false} NumberedAppend(names: seq<string>, a: seq<Token>, b: seq<Token>)
    ensures Numbered(names, a + b) == Numbered(Numbered(names, a), b)
    decreases |a|
  {
    if a == [] {
      assert a + b == b;
    } else {
      assert (a + b)[1..] == a[1..] + b;
      NumberedAppend(if a[0].Name? && a[0].name !in names then names + [a[0].name] else names, a[1..], b);
    }
  }

  // ---- Rendering ----

  /** `$stack2` of ParseOne and its error count. */
  datatype Rendering = Rendering(stack: seq<seq<Token>>, errors: nat)

  function RenderItem(r: Rendering, item: Item<string>): Rendering {
    var n := |r.stack|;
    match item
    case Constant(value) => Rendering(r.stack + [[Digit(value)]], r.errors)
    case Variable(name) => Rendering(r.stack + [[Name(name)]], r.errors)
    case Apply(op) =>
      if n < (if op == NOT then 1 else 2) then Rendering(r.stack, r.errors + 1)
      else if op == NOT then Rendering(r.stack[..n - 1] + [[Operator(NOT)] + r.stack[n - 1]], r.errors)
      else Rendering(r.stack[..n - 2] + [[Open] + (r.stack[n - 2] + [Operator(op)] + r.stack[n - 1]) + [Close]], r.errors)
  }

  function RenderAll(r: Rendering, items: seq<Item<string>>): Rendering
    decreases |items|
  {
    if items == [] then r else RenderAll(RenderItem(r, items[0]), items[1..])
  }

  lemma {:induction false} RenderOneMore(r: Rendering, items: seq<Item<string>>, item: Item<string>)
    ensures RenderAll(r, items + [item]) == RenderItem(RenderAll(r, items), item)
    decreases |items|
  {
    if items == [] {
      assert items + [item] == [item] && [item][1..] == [];
    } else {
      assert (items + [item])[1..] == items[1..] + [item];
      RenderOneMore(RenderItem(r, items[0]), items[1..], item);
    }
  }

  /** `parse_errors` of a rendering that has ended. */
  function ErrorsIn(r: Rendering): nat {
    r.errors + if |r.stack| != 1 then 1 else 0
  }

  /** A postfix list for one formula, when `height` operands are already there. */
  predicate IsPostfix<V>(items: seq<Item<V>>, height: nat)
    decreases |items|
  {
    if |items| == 0 then height == 1
    else if items[0].Apply? && items[0].op == NOT then height >= 1 && IsPostfix(items[1..], height)
    else if items[0].Apply? then height >= 2 && IsPostfix(items[1..], height - 1)
    else IsPostfix(items[1..], height + 1)
  }

  lemma {:induction false} ErrorsOnlyGrow(r: Rendering, items: seq<Item<string>>)
    ensures RenderAll(r, items).errors >= r.errors
    decreases |items|
  {
    if items != [] {
      ErrorsOnlyGrow(RenderItem(r, items[0]), items[1..]);
    }
  }

  /** ParseOne reports an error exactly if the list is no postfix list of one formula. */
  lemma {:induction false} ErrorsAreExact(r: Rendering, items: seq<Item<string>>)
    requires r.errors == 0
    ensures ErrorsIn(RenderAll(r, items)) == 0 <==> IsPostfix(items, |r.stack|)
    decreases |items|
  {
    if items != [] {
      var next := RenderItem(r, items[0]);
      if next.errors == 0 {
        ErrorsAreExact(next, items[1..]);
      } else {
        ErrorsOnlyGrow(next, items[1..]);
      }
    }
  }

  lemma {:induction false} PostfixThen(e: Expr, rest: seq<Item<string>>, height: nat)
    requires Shaped(e)
    ensures IsPostfix(Postfix(e) + rest, height) <==> IsPostfix(rest, height + 1)
    decreases e
  {
    match e
    case Lit(value) => assert ([Constant(value)] + rest)[1..] == rest;
    case Var(name) => assert ([Variable(name)] + rest)[1..] == rest;
    case Paren(inner) => PostfixThen(inner, rest, height);
    case Neg(arg) =>
      PostfixThen(arg, [Apply(NOT)] + rest, height);
      Reassociate(Postfix(arg), [Apply(NOT)], rest);
      assert ([Apply(NOT)] + rest)[1..] == rest;
    case Bin(op, left, right) =>
      PostfixThen(left, Postfix(right) + ([Apply(op)] + rest), height);
      PostfixThen(right, [Apply(op)] + rest, height + 1);
      Reassociate(Postfix(left) + Postfix(right), [Apply(op)], rest);
      Reassociate(Postfix(left), Postfix(right), [Apply(op)] + rest);
      assert ([Apply(op)] + rest)[1..] == rest;
  }

  /** A formula's list is a postfix list, so ParseOne finds no error in a well-formed phrase. */
  lemma FormulasArePostfix(e: Expr)
    requires Shaped(e)
    ensures IsPostfix(Postfix(e), 0)
  {
    PostfixThen(e, [], 0);
    assert Postfix(e) + [] == Postfix(e);
  }

  /** Bracketed formulas, whose tokens stand on the stack. */
  ghost predicate Renders(stack: seq<seq<Token>>, trees: seq<Expr>) {
    && |stack| == |trees|
    && forall i :: 0 <= i < |trees| ==> Shaped(trees[i]) && Tightness(trees[i]) >= 8 && stack[i] == Tokens(trees[i])
  }

  function PostfixAll(trees: seq<Expr>): seq<Item<string>> {
    if trees == [] then [] else PostfixAll(trees[..|trees| - 1]) + Postfix(trees[|trees| - 1])
  }

  lemma PostfixAllPush(trees: seq<Expr>, e: Expr)
    ensures PostfixAll(trees + [e]) == PostfixAll(trees) + Postfix(e)
  {
    assert (trees + [e])[..|trees|] == trees;
  }

  lemma RenderAtom(r: Rendering, trees: seq<Expr>, e: Expr)
    requires Renders(r.stack, trees) && (e.Lit? || e.Var?)
    ensures Renders(r.stack + [Tokens(e)], trees + [e])
    ensures PostfixAll(trees + [e]) == PostfixAll(trees) + Postfix(e)
  {
    PostfixAllPush(trees, e);
  }

  lemma PostfixOfNot(trees: seq<Expr>)
    requires |trees| >= 1
    ensures var k := |trees| - 1;
      PostfixAll(trees[..k] + [Neg(trees[k])]) == PostfixAll(trees) + [Apply(NOT)]
  {
    var k := |trees| - 1;
    PostfixAllPush(trees[..k], Neg(trees[k]));
    Reassociate(PostfixAll(trees[..k]), Postfix(trees[k]), [Apply(NOT)]);
  }

  /** The top of the stack is replaced by the tokens of a formula. */
  lemma RendersPush(stack: seq<seq<Token>>, trees: seq<Expr>, k: nat, e: Expr)
    requires Renders(stack, trees) && k <= |trees| && Shaped(e) && Tightness(e) >= 8
    ensures Renders(stack[..k] + [Tokens(e)], trees[..k] + [e])
  {
  }

  lemma RenderNot(stack: seq<seq<Token>>, trees: seq<Expr>)
    requires Renders(stack, trees) && |trees| >= 1
    ensures var k := |trees| - 1;
      Renders(RenderItem(Rendering(stack, 0), Apply(NOT)).stack, trees[..k] + [Neg(trees[k])])
  {
    var k := |trees| - 1;
    NegationTokens(trees[k]);
    RendersPush(stack, trees, k, Neg(trees[k]));
  }

  lemma NegationTokens(e: Expr)
    requires Shaped(e) && Tightness(e) >= 8
    ensures Shaped(Neg(e)) && Tokens(Neg(e)) == [Operator(NOT)] + Tokens(e)
  {
  }

  lemma BracketedTokens(op: Op, left: Expr, right: Expr)
    requires Shaped(left) && Shaped(right) && Tightness(left) >= 8 && Tightness(right) >= 8 && op != NOT
    ensures Shaped(Paren(Bin(op, left, right)))
    ensures Tokens(Paren(Bin(op, left, right))) == [Open] + (Tokens(left) + [Operator(op)] + Tokens(right)) + [Close]
  {
    assert Shaped(Bin(op, left, right));
    assert Tokens(Bin(op, left, right)) == Tokens(left) + [Operator(op)] + Tokens(right);
  }

  lemma PostfixOfBinary(trees: seq<Expr>, op: Op)
    requires |trees| >= 2
    ensures var k := |trees| - 2;
      PostfixAll(trees[..k] + [Paren(Bin(op, trees[k], trees[k + 1]))]) == PostfixAll(trees) + [Apply(op)]
  {
    var k := |trees| - 2;
    var front, left, right := PostfixAll(trees[..k]), Postfix(trees[k]), Postfix(trees[k + 1]);
    PostfixAllPush(trees[..k], Paren(Bin(op, trees[k], trees[k + 1])));
    assert trees[..k + 1][..k] == trees[..k];
    assert PostfixAll(trees) == (front + left) + right;
    Reassociate(front + left, right, [Apply(op)]);
    Reassociate(front, left, right + [Apply(op)]);
    Reassociate(left, right, [Apply(op)]);
  }

  lemma RenderBinary(stack: seq<seq<Token>>, trees: seq<Expr>, op: Op)
    requires Renders(stack, trees) && |trees| >= 2 && op != NOT
    ensures var k := |trees| - 2;
      Renders(RenderItem(Rendering(stack, 0), Apply(op)).stack, trees[..k] + [Paren(Bin(op, trees[k], trees[k + 1]))])
  {
    var k := |trees| - 2;
    BracketedTokens(op, trees[k], trees[k + 1]);
    RendersPush(stack, trees, k, Paren(Bin(op, trees[k], trees[k + 1])));
  }

  /** One item. */
  lemma RenderStep(r: Rendering, trees: seq<Expr>, item: Item<string>) returns (trees': seq<Expr>)
    requires Renders(r.stack, trees) && r.errors == 0
    requires item.Apply? ==> |trees| >= if item.op == NOT then 1 else 2
    ensures var r' := RenderItem(r, item); r'.errors == 0 && Renders(r'.stack, trees')
    ensures PostfixAll(trees') == PostfixAll(trees) + [item]
  {
    match item
    case Constant(value) =>
      RenderAtom(r, trees, Lit(value));
      trees' := trees + [Lit(value)];
    case Variable(name) =>
      RenderAtom(r, trees, Var(name));
      trees' := trees + [Var(name)];
    case Apply(op) =>
      if op == NOT {
        RenderNot(r.stack, trees);
        PostfixOfNot(trees);
        trees' := trees[..|trees| - 1] + [Neg(trees[|trees| - 1])];
      } else {
        RenderBinary(r.stack, trees, op);
        PostfixOfBinary(trees, op);
        trees' := trees[..|trees| - 2] + [Paren(Bin(op, trees[|trees| - 2], trees[|trees| - 1]))];
      }
  }

  lemma {:induction false} RenderTrees(r: Rendering, trees: seq<Expr>, items: seq<Item<string>>) returns (e: Expr)
    requires Renders(r.stack, trees) && r.errors == 0 && IsPostfix(items, |trees|)
    ensures RenderAll(r, items) == Rendering([Tokens(e)], 0)
    ensures Shaped(e) && Postfix(e) == PostfixAll(trees) + items
    decreases |items|
  {
    if items == [] {
      e := trees[0];
      assert PostfixAll(trees[..0]) == [];
      assert r.stack == [Tokens(e)] && PostfixAll(trees) + items == Postfix(e);
    } else {
      var trees' := RenderStep(r, trees, items[0]);
      e := RenderTrees(RenderItem(r, items[0]), trees', items[1..]);
      assert items == [items[0]] + items[1..];
      Reassociate(PostfixAll(trees), [items[0]], items[1..]);
    }
  }

  /** Printer and parser undo each other: for every well-formed postfix list the rendering has
      no errors, and the token loop turns its tokens into the same list. */
  lemma PrintThenParse(items: seq<Item<string>>) returns (tokens: seq<Token>)
    requires IsPostfix(items, 0)
    ensures RenderAll(Rendering([], 0), items) == Rendering([tokens], 0)
    ensures Steps(Yard([], []), tokens) && Parsed(tokens) == items
    ensures OpenCount(Run(Yard([], []), tokens).stack) == 0
  {
    var e := RenderTrees(Rendering([], 0), [], items);
    tokens := Tokens(e);
    assert PostfixAll([]) + items == items;
    ParsesFormula(e);
  }
}
