/** The order of the operators, read off what the shunting yard does with short phrases. */
module Precedences {
  import opened Formulas
  import opened Parsing

  /** The binary operators from the loosest to the tightest. */
  const LOOSEST_FIRST: seq<Op> := [IMP, OR, NOR, XOR, XNOR, AND, NAND]

  /** From this yard, the tokens lead to the list. */
  ghost predicate Emits(y: Yard, tokens: seq<Token>, list: seq<Item<string>>) {
    Steps(y, tokens) && Drain(Run(y, tokens)) == list
  }

  lemma EmitsNext(y: Yard, token: Token, next: Yard, rest: seq<Token>, list: seq<Item<string>>)
    requires Possible(y, token) && Step(y, token) == next && Emits(next, rest, list)
    ensures Emits(y, [token] + rest, list)
  {
    assert ([token] + rest)[1..] == rest;
  }

  lemma EmitsName(output: seq<Item<string>>, stack: seq<Entry>, x: string, more: seq<Item<string>>, rest: seq<Token>,
                  list: seq<Item<string>>)
    requires more == output + [Variable(x)] && Emits(Yard(more, stack), rest, list)
    ensures Emits(Yard(output, stack), [Name(x)] + rest, list)
  {
    EmitsNext(Yard(output, stack), Name(x), Yard(more, stack), rest, list);
  }

  /** An operator on top of others that it does not release. */
  lemma EmitsOperator(output: seq<Item<string>>, stack: seq<Entry>, op: Op, more: seq<Entry>, rest: seq<Token>,
                      list: seq<Item<string>>)
    requires stack == [] || Stays(stack[|stack| - 1], op)
    requires more == stack + [Waiting(op)] && Emits(Yard(output, more), rest, list)
    ensures Emits(Yard(output, stack), [Operator(op)] + rest, list)
  {
    EmitsNext(Yard(output, stack), Operator(op), Yard(output, more), rest, list);
  }

  /** An operator that releases the only one that waits. */
  lemma EmitsReleased(output: seq<Item<string>>, first: Op, second: Op, more: seq<Item<string>>, rest: seq<Token>,
                      list: seq<Item<string>>)
    requires !Stays(Waiting(first), second)
    requires more == output + [Apply(first)] && Emits(Yard(more, [Waiting(second)]), rest, list)
    ensures Emits(Yard(output, [Waiting(first)]), [Operator(second)] + rest, list)
  {
    var y, popped := Yard(output, [Waiting(first)]), Yard(more, []);
    assert y.stack[..0] == [] && PopFor(popped, second) == popped;
    assert PopFor(y, second) == popped;
    assert popped.stack + [Waiting(second)] == [Waiting(second)];
    hide Emits, PopFor, Stays;
    EmitsNext(y, Operator(second), Yard(more, [Waiting(second)]), rest, list);
  }

  lemma EndsWithOne(output: seq<Item<string>>, op: Op, list: seq<Item<string>>)
    requires list == output + [Apply(op)]
    ensures Emits(Yard(output, [Waiting(op)]), [], list)
  {
    assert [Waiting(op)][..0] == [];
  }

  lemma EndsWithTwo(output: seq<Item<string>>, first: Op, second: Op, list: seq<Item<string>>)
    requires list == output + [Apply(second), Apply(first)]
    ensures Emits(Yard(output, [Waiting(first), Waiting(second)]), [], list)
  {
    assert [Waiting(first), Waiting(second)][..1] == [Waiting(first)];
    EndsWithOne(output + [Apply(second)], first, list);
  }

  // ---- Two binary operators ----

  /** Of two binary operators the second one is applied first exactly if it stands later in the
      list; an operator next to itself associates to the left. */
  lemma TwoOperators(x: string, i: nat, y: string, j: nat, z: string)
    requires i < 7 && j < 7
    ensures var first, second := LOOSEST_FIRST[i], LOOSEST_FIRST[j];
      var tokens := [Name(x), Operator(first), Name(y), Operator(second), Name(z)];
      && Steps(Yard([], []), tokens)
      && Parsed(tokens) == if i < j then [Variable(x), Variable(y), Variable(z), Apply(second), Apply(first)]
                           else [Variable(x), Variable(y), Apply(first), Variable(z), Apply(second)]
  {
    var first, second := LOOSEST_FIRST[i], LOOSEST_FIRST[j];
    if i < j {
      SecondFirst(x, first, y, second, z);
    } else {
      FirstFirst(x, first, y, second, z);
    }
    assert [Name(x)] + ([Operator(first)] + ([Name(y)] + ([Operator(second)] + ([Name(z)] + []))))
      == [Name(x), Operator(first), Name(y), Operator(second), Name(z)];
  }

  lemma SecondFirst(x: string, first: Op, y: string, second: Op, z: string)
    requires Stays(Waiting(first), second)
    ensures Emits(Yard([], []), [Name(x)] + ([Operator(first)] + ([Name(y)] + ([Operator(second)] + ([Name(z)] + [])))),
                  [Variable(x), Variable(y), Variable(z), Apply(second), Apply(first)])
  {
    var list := [Variable(x), Variable(y), Variable(z), Apply(second), Apply(first)];
    EndsWithTwo([Variable(x), Variable(y), Variable(z)], first, second, list);
    EmitsName([Variable(x), Variable(y)], [Waiting(first), Waiting(second)], z,
              [Variable(x), Variable(y), Variable(z)], [], list);
    EmitsOperator([Variable(x), Variable(y)], [Waiting(first)], second, [Waiting(first), Waiting(second)],
                  [Name(z)] + [], list);
    var rest := [Operator(second)] + ([Name(z)] + []);
    EmitsName([Variable(x)], [Waiting(first)], y, [Variable(x), Variable(y)], rest, list);
    EmitsOperator([Variable(x)], [], first, [Waiting(first)], [Name(y)] + rest, list);
    EmitsName([], [], x, [Variable(x)], [Operator(first)] + ([Name(y)] + rest), list);
  }

  lemma FirstFirst(x: string, first: Op, y: string, second: Op, z: string)
    requires !Stays(Waiting(first), second)
    ensures Emits(Yard([], []), [Name(x)] + ([Operator(first)] + ([Name(y)] + ([Operator(second)] + ([Name(z)] + [])))),
                  [Variable(x), Variable(y), Apply(first), Variable(z), Apply(second)])
  {
    var list := [Variable(x), Variable(y), Apply(first), Variable(z), Apply(second)];
    EndsWithOne([Variable(x), Variable(y), Apply(first), Variable(z)], second, list);
    EmitsName([Variable(x), Variable(y), Apply(first)], [Waiting(second)], z,
              [Variable(x), Variable(y), Apply(first), Variable(z)], [], list);
    EmitsReleased([Variable(x), Variable(y)], first, second, [Variable(x), Variable(y), Apply(first)], [Name(z)] + [],
                  list);
    var rest := [Operator(second)] + ([Name(z)] + []);
    EmitsName([Variable(x)], [Waiting(first)], y, [Variable(x), Variable(y)], rest, list);
    EmitsOperator([Variable(x)], [], first, [Waiting(first)], [Name(y)] + rest, list);
    EmitsName([], [], x, [Variable(x)], [Operator(first)] + ([Name(y)] + rest), list);
  }

  // ---- NOT ----

  /** NOT takes only its atom, before a binary operator and behind it, and may be repeated. */
  lemma NotTakesItsAtom(x: string, op: Op, y: string)
    requires op != NOT
    ensures var tokens := [Operator(NOT), Name(x), Operator(op), Name(y)];
      Steps(Yard([], []), tokens) && Parsed(tokens) == [Variable(x), Apply(NOT), Variable(y), Apply(op)]
    ensures var tokens := [Name(x), Operator(op), Operator(NOT), Name(y)];
      Steps(Yard([], []), tokens) && Parsed(tokens) == [Variable(x), Variable(y), Apply(NOT), Apply(op)]
    ensures var tokens := [Operator(NOT), Operator(NOT), Name(x)];
      Steps(Yard([], []), tokens) && Parsed(tokens) == [Variable(x), Apply(NOT), Apply(NOT)]
  {
    NotBefore(x, op, y);
    NotBehind(x, op, y);
    NotTwice(x);
    assert [Operator(NOT)] + ([Name(x)] + ([Operator(op)] + ([Name(y)] + []))) == [Operator(NOT), Name(x), Operator(op), Name(y)];
    assert [Name(x)] + ([Operator(op)] + ([Operator(NOT)] + ([Name(y)] + []))) == [Name(x), Operator(op), Operator(NOT), Name(y)];
    assert [Operator(NOT)] + ([Operator(NOT)] + ([Name(x)] + [])) == [Operator(NOT), Operator(NOT), Name(x)];
  }

  lemma NotBefore(x: string, op: Op, y: string)
    requires op != NOT
    ensures Emits(Yard([], []), [Operator(NOT)] + ([Name(x)] + ([Operator(op)] + ([Name(y)] + []))),
                  [Variable(x), Apply(NOT), Variable(y), Apply(op)])
  {
    var list := [Variable(x), Apply(NOT), Variable(y), Apply(op)];
    EndsWithOne([Variable(x), Apply(NOT), Variable(y)], op, list);
    EmitsName([Variable(x), Apply(NOT)], [Waiting(op)], y, [Variable(x), Apply(NOT), Variable(y)], [], list);
    EmitsReleased([Variable(x)], NOT, op, [Variable(x), Apply(NOT)], [Name(y)] + [], list);
    var rest := [Operator(op)] + ([Name(y)] + []);
    EmitsName([], [Waiting(NOT)], x, [Variable(x)], rest, list);
    EmitsOperator([], [], NOT, [Waiting(NOT)], [Name(x)] + rest, list);
  }

  lemma NotBehind(x: string, op: Op, y: string)
    requires op != NOT
    ensures Emits(Yard([], []), [Name(x)] + ([Operator(op)] + ([Operator(NOT)] + ([Name(y)] + []))),
                  [Variable(x), Variable(y), Apply(NOT), Apply(op)])
  {
    var list := [Variable(x), Variable(y), Apply(NOT), Apply(op)];
    EndsWithTwo([Variable(x), Variable(y)], op, NOT, list);
    EmitsName([Variable(x)], [Waiting(op), Waiting(NOT)], y, [Variable(x), Variable(y)], [], list);
    EmitsOperator([Variable(x)], [Waiting(op)], NOT, [Waiting(op), Waiting(NOT)], [Name(y)] + [], list);
    var rest := [Operator(NOT)] + ([Name(y)] + []);
    EmitsOperator([Variable(x)], [], op, [Waiting(op)], rest, list);
    EmitsName([], [], x, [Variable(x)], [Operator(op)] + rest, list);
  }

  lemma NotTwice(x: string)
    ensures Emits(Yard([], []), [Operator(NOT)] + ([Operator(NOT)] + ([Name(x)] + [])),
                  [Variable(x), Apply(NOT), Apply(NOT)])
  {
    var list := [Variable(x), Apply(NOT), Apply(NOT)];
    EndsWithTwo([Variable(x)], NOT, NOT, list);
    EmitsName([], [Waiting(NOT), Waiting(NOT)], x, [Variable(x)], [], list);
    EmitsOperator([], [Waiting(NOT)], NOT, [Waiting(NOT), Waiting(NOT)], [Name(x)] + [], list);
    EmitsOperator([], [], NOT, [Waiting(NOT)], [Operator(NOT)] + ([Name(x)] + []), list);
  }

  // ---- Parentheses ----

  /** Parentheses overrule the order, on either side. */
  lemma ParenthesesOverrule(x: string, first: Op, y: string, second: Op, z: string)
    ensures var tokens := [Open, Name(x), Operator(first), Name(y), Close, Operator(second), Name(z)];
      Steps(Yard([], []), tokens)
      && Parsed(tokens) == [Variable(x), Variable(y), Apply(first), Variable(z), Apply(second)]
    ensures var tokens := [Name(x), Operator(first), Open, Name(y), Operator(second), Name(z), Close];
      Steps(Yard([], []), tokens)
      && Parsed(tokens) == [Variable(x), Variable(y), Variable(z), Apply(second), Apply(first)]
  {
    ParenthesesFirst(x, first, y, second, z);
    ParenthesesSecond(x, first, y, second, z);
    assert [Open] + ([Name(x)] + ([Operator(first)] + ([Name(y)] + ([Close] + ([Operator(second)] + ([Name(z)] + []))))))
      == [Open, Name(x), Operator(first), Name(y), Close, Operator(second), Name(z)];
    assert [Name(x)] + ([Operator(first)] + ([Open] + ([Name(y)] + ([Operator(second)] + ([Name(z)] + ([Close] + []))))))
      == [Name(x), Operator(first), Open, Name(y), Operator(second), Name(z), Close];
  }

  lemma EmitsOpen(output: seq<Item<string>>, stack: seq<Entry>, more: seq<Entry>, rest: seq<Token>,
                  list: seq<Item<string>>)
    requires more == stack + [Parens] && Emits(Yard(output, more), rest, list)
    ensures Emits(Yard(output, stack), [Open] + rest, list)
  {
    EmitsNext(Yard(output, stack), Open, Yard(output, more), rest, list);
  }

  lemma PopsOne(y: Yard, op: Op, rest: seq<Entry>)
    requires y.stack == rest + [Waiting(op)] && Parens in rest
    ensures Parens in y.stack && PopToParens(y) == PopToParens(Yard(y.output + [Apply(op)], rest))
  {
    assert y.stack[..|y.stack| - 1] == rest;
  }

  lemma PopsParens(y: Yard, rest: seq<Entry>)
    requires y.stack == rest + [Parens]
    ensures Parens in y.stack && PopToParens(y) == Yard(y.output, rest)
  {
    assert y.stack[..|y.stack| - 1] == rest;
  }

  /** One operator waits behind the parenthesis that is closed. */
  lemma EmitsClose(output: seq<Item<string>>, full: seq<Entry>, stack: seq<Entry>, op: Op, more: seq<Item<string>>,
                   rest: seq<Token>, list: seq<Item<string>>)
    requires full == stack + [Parens, Waiting(op)] && more == output + [Apply(op)]
      && Emits(Yard(more, stack), rest, list)
    ensures Emits(Yard(output, full), [Close] + rest, list)
  {
    var inside := stack + [Parens];
    assert inside[|stack|] == Parens && full == inside + [Waiting(op)];
    PopsParens(Yard(more, inside), stack);
    PopsOne(Yard(output, full), op, inside);
    hide Emits, PopToParens;
    EmitsNext(Yard(output, full), Close, Yard(more, stack), rest, list);
  }

  lemma ParenthesesFirst(x: string, first: Op, y: string, second: Op, z: string)
    ensures Emits(Yard([], []), [Open] + ([Name(x)] + ([Operator(first)] + ([Name(y)] + ([Close] + ([Operator(second)] + ([Name(z)] + [])))))),
                  [Variable(x), Variable(y), Apply(first), Variable(z), Apply(second)])
  {
    var list := [Variable(x), Variable(y), Apply(first), Variable(z), Apply(second)];
    EndsWithOne([Variable(x), Variable(y), Apply(first), Variable(z)], second, list);
    EmitsName([Variable(x), Variable(y), Apply(first)], [Waiting(second)], z,
              [Variable(x), Variable(y), Apply(first), Variable(z)], [], list);
    EmitsOperator([Variable(x), Variable(y), Apply(first)], [], second, [Waiting(second)], [Name(z)] + [], list);
    var rest := [Operator(second)] + ([Name(z)] + []);
    EmitsClose([Variable(x), Variable(y)], [Parens, Waiting(first)], [], first,
               [Variable(x), Variable(y), Apply(first)], rest, list);
    EmitsName([Variable(x)], [Parens, Waiting(first)], y, [Variable(x), Variable(y)], [Close] + rest, list);
    EmitsOperator([Variable(x)], [Parens], first, [Parens, Waiting(first)], [Name(y)] + ([Close] + rest), list);
    EmitsName([], [Parens], x, [Variable(x)], [Operator(first)] + ([Name(y)] + ([Close] + rest)), list);
    EmitsOpen([], [], [Parens], [Name(x)] + ([Operator(first)] + ([Name(y)] + ([Close] + rest))), list);
  }

  lemma ParenthesesSecond(x: string, first: Op, y: string, second: Op, z: string)
    ensures Emits(Yard([], []), [Name(x)] + ([Operator(first)] + ([Open] + ([Name(y)] + ([Operator(second)] + ([Name(z)] + ([Close] + [])))))),
                  [Variable(x), Variable(y), Variable(z), Apply(second), Apply(first)])
  {
    var list := [Variable(x), Variable(y), Variable(z), Apply(second), Apply(first)];
    var out := [Variable(x), Variable(y), Variable(z)];
    EndsWithOne(out + [Apply(second)], first, list);
    EmitsClose(out, [Waiting(first), Parens, Waiting(second)], [Waiting(first)], second, out + [Apply(second)], [],
               list);
    EmitsName([Variable(x), Variable(y)], [Waiting(first), Parens, Waiting(second)], z,
              [Variable(x), Variable(y), Variable(z)], [Close] + [], list);
    var rest := [Name(z)] + ([Close] + []);
    EmitsOperator([Variable(x), Variable(y)], [Waiting(first), Parens], second,
                  [Waiting(first), Parens, Waiting(second)], rest, list);
    EmitsName([Variable(x)], [Waiting(first), Parens], y, [Variable(x), Variable(y)], [Operator(second)] + rest, list);
    EmitsOpen([Variable(x)], [Waiting(first)], [Waiting(first), Parens], [Name(y)] + ([Operator(second)] + rest), list);
    EmitsOperator([Variable(x)], [], first, [Waiting(first)], [Open] + ([Name(y)] + ([Operator(second)] + rest)), list);
    EmitsName([], [], x, [Variable(x)], [Operator(first)] + ([Open] + ([Name(y)] + ([Operator(second)] + rest))), list);
  }
}
