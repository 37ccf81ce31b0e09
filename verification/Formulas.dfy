/** Formulas of the front end: tokens, the trees that precedences give them, and postfix lists. */
module Formulas {
  import opened BitStream

  datatype Op = NOT | NAND | AND | XNOR | XOR | NOR | OR | IMP

  datatype Token = Open | Close | Operator(op: Op) | Digit(value: bool) | Name(name: string)

  /** An entry of a postfix list: a constant, an operator, or a variable. */
  datatype Item<V> = Constant(value: bool) | Apply(op: Op) | Variable(v: V)

  /** A formula as written, parentheses included. */
  datatype Expr = Lit(value: bool) | Var(name: string) | Neg(arg: Expr) | Bin(op: Op, left: Expr, right: Expr) | Paren(inner: Expr)

  /** The precedences table of DoParse. */
  function Precedence(op: Op): nat {
    match op
    case NOT => 8
    case NAND => 7
    case AND => 6
    case XNOR => 5
    case XOR => 4
    case NOR => 3
    case OR => 2
    case IMP => 1
  }

  /** What binds a formula together; parentheses and atoms hold tightest. */
  function Tightness(e: Expr): nat {
    match e
    case Neg(_) => 8
    case Bin(op, _, _) => Precedence(op)
    case _ => 9
  }

  /** The tree respects the precedences, binary operators associating to the left. */
  ghost predicate Shaped(e: Expr) {
    match e
    case Lit(_) => true
    case Var(_) => true
    case Paren(inner) => Shaped(inner)
    case Neg(arg) => Shaped(arg) && Tightness(arg) >= 8
    case Bin(op, left, right) =>
      op != NOT && Shaped(left) && Shaped(right) && Tightness(left) >= Precedence(op) && Tightness(right) > Precedence(op)
  }

  function Tokens(e: Expr): (tokens: seq<Token>)
    ensures |tokens| > 0
  {
    match e
    case Lit(value) => [Digit(value)]
    case Var(name) => [Name(name)]
    case Paren(inner) => [Open] + Tokens(inner) + [Close]
    case Neg(arg) => [Operator(NOT)] + Tokens(arg)
    case Bin(op, left, right) => Tokens(left) + [Operator(op)] + Tokens(right)
  }

  function Postfix(e: Expr): seq<Item<string>> {
    match e
    case Lit(value) => [Constant(value)]
    case Var(name) => [Variable(name)]
    case Paren(inner) => Postfix(inner)
    case Neg(arg) => Postfix(arg) + [Apply(NOT)]
    case Bin(op, left, right) => Postfix(left) + Postfix(right) + [Apply(op)]
  }

  function Combine(op: Op, a: bool, b: bool): bool {
    match op
    case NOT => !b
    case NAND => !(a && b)
    case AND => a && b
    case XNOR => a == b
    case XOR => a != b
    case NOR => !(a || b)
    case OR => a || b
    case IMP => a ==> b
  }

  /** The value of a formula for an assignment of its names. */
  ghost function Meaning(e: Expr, env: string -> bool): bool {
    match e
    case Lit(value) => value
    case Var(name) => env(name)
    case Paren(inner) => Meaning(inner, env)
    case Neg(arg) => !Meaning(arg, env)
    case Bin(op, left, right) => Combine(op, Meaning(left, env), Meaning(right, env))
  }

  // ---- Every well-formed token list has such a tree ----

  /** Operands and binary operators alternate, NOT stands before operands, and parentheses
      match; `depth` of them are open. */
  predicate WellFormedFrom(tokens: seq<Token>, depth: nat, operand: bool)
    decreases |tokens|
  {
    if tokens == [] then !operand && depth == 0
    else
      var rest := tokens[1..];
      match tokens[0]
      case Open => operand && WellFormedFrom(rest, depth + 1, true)
      case Close => !operand && depth > 0 && WellFormedFrom(rest, depth - 1, false)
      case Operator(op) => operand == (op == NOT) && WellFormedFrom(rest, depth, true)
      case Digit(_) => operand && WellFormedFrom(rest, depth, false)
      case Name(_) => operand && WellFormedFrom(rest, depth, false)
  }

  predicate WellFormed(tokens: seq<Token>) {
    WellFormedFrom(tokens, 0, true)
  }

  /** What has been read to the left of the current operand. */
  datatype Context = Top | InParen(outer: Context) | AfterNot(outer: Context) | AfterLeft(outer: Context, left: Expr, op: Op)

  function ContextTokens(c: Context): seq<Token> {
    match c
    case Top => []
    case InParen(outer) => ContextTokens(outer) + [Open]
    case AfterNot(outer) => ContextTokens(outer) + [Operator(NOT)]
    case AfterLeft(outer, left, op) => ContextTokens(outer) + Tokens(left) + [Operator(op)]
  }

  /** The operator that waits for the current operand. */
  function Pending(c: Context): nat {
    match c
    case Top => 0
    case InParen(_) => 0
    case AfterNot(_) => 8
    case AfterLeft(_, _, op) => Precedence(op)
  }

  function Depth(c: Context): nat {
    match c
    case Top => 0
    case InParen(outer) => 1 + Depth(outer)
    case AfterNot(outer) => Depth(outer)
    case AfterLeft(outer, _, _) => Depth(outer)
  }

  /** Waiting operators bind ever tighter, up to the nearest parenthesis. */
  ghost predicate ShapedContext(c: Context) {
    match c
    case Top => true
    case InParen(outer) => ShapedContext(outer)
    case AfterNot(outer) => ShapedContext(outer)
    case AfterLeft(outer, left, op) =>
      ShapedContext(outer) && op != NOT && Shaped(left) && Tightness(left) >= Precedence(op) && Pending(outer) < Precedence(op)
  }

  /** `e` may be the operand the context waits for. */
  ghost predicate Accepts(c: Context, e: Expr) {
    Shaped(e) && match c
      case AfterNot(_) => Tightness(e) >= 8
      case AfterLeft(_, _, op) => Tightness(e) > Precedence(op)
      case _ => true
  }

  /** Closing one waiting operator. */
  lemma CloseOne(c: Context, e: Expr)
    requires ShapedContext(c) && Accepts(c, e)
    ensures c.AfterNot? ==> Accepts(c.outer, Neg(e)) && Consumed(c.outer, Neg(e)) == Consumed(c, e)
    ensures c.AfterLeft? ==> Accepts(c.outer, Bin(c.op, c.left, e)) && Consumed(c.outer, Bin(c.op, c.left, e)) == Consumed(c, e)
  {
    match c
    case AfterNot(outer) =>
      Reassociate(ContextTokens(outer), [Operator(NOT)], Tokens(e));
    case AfterLeft(outer, left, op) =>
      Reassociate(ContextTokens(outer) + Tokens(left), [Operator(op)], Tokens(e));
      Reassociate(ContextTokens(outer), Tokens(left), [Operator(op)] + Tokens(e));
      Reassociate(Tokens(left), [Operator(op)], Tokens(e));
    case _ =>
  }

  function Consumed(c: Context, e: Expr): seq<Token> {
    ContextTokens(c) + Tokens(e)
  }

  /** Closes the operators that bind at least as tightly as `p`. */
  lemma {:induction false} CloseDown(c: Context, e: Expr, p: nat) returns (c': Context, e': Expr)
    requires ShapedContext(c) && Accepts(c, e) && 1 <= p <= 8 && (Tightness(e) == 9 || Tightness(e) >= p)
    ensures ShapedContext(c') && Shaped(e') && (Tightness(e') == 9 || Tightness(e') >= p) && Pending(c') < p
    ensures Consumed(c', e') == Consumed(c, e) && Depth(c') == Depth(c)
    ensures p == 1 ==> c'.Top? || c'.InParen?
    decreases c
  {
    CloseOne(c, e);
    if c.AfterNot? {
      c', e' := CloseDown(c.outer, Neg(e), p);
    } else if c.AfterLeft? && p <= Precedence(c.op) {
      c', e' := CloseDown(c.outer, Bin(c.op, c.left, e), p);
    } else {
      c', e' := c, e;
    }
  }

  /** What has been read so far. */
  function ReadSoFar(c: Context, current: Expr, operand: bool): seq<Token> {
    if operand then ContextTokens(c) else Consumed(c, current)
  }

  ghost predicate Reading(c: Context, current: Expr, operand: bool) {
    ShapedContext(c) && (!operand ==> Accepts(c, current) && Tightness(current) == 9)
  }

  lemma ReadClose(c: Context, current: Expr) returns (c': Context, current': Expr)
    requires Reading(c, current, false) && Depth(c) > 0
    ensures Reading(c', current', false) && Depth(c') == Depth(c) - 1
    ensures ReadSoFar(c', current', false) == ReadSoFar(c, current, false) + [Close]
  {
    var outer, inner := CloseDown(c, current, 1);
    c', current' := outer.outer, Paren(inner);
    Reassociate(ContextTokens(c'), [Open], Tokens(inner));
    Reassociate(ContextTokens(c'), [Open] + Tokens(inner), [Close]);
  }

  lemma ReadOperator(c: Context, current: Expr, op: Op) returns (c': Context)
    requires Reading(c, current, false) && op != NOT
    ensures Reading(c', current, true) && Depth(c') == Depth(c)
    ensures ReadSoFar(c', current, true) == ReadSoFar(c, current, false) + [Operator(op)]
  {
    var outer, left := CloseDown(c, current, Precedence(op));
    c' := AfterLeft(outer, left, op);
  }

  /** One token. */
  lemma ReadToken(c: Context, current: Expr, operand: bool, tokens: seq<Token>)
    returns (c': Context, current': Expr, operand': bool)
    requires Reading(c, current, operand) && tokens != [] && WellFormedFrom(tokens, Depth(c), operand)
    ensures Reading(c', current', operand') && WellFormedFrom(tokens[1..], Depth(c'), operand')
    ensures ReadSoFar(c', current', operand') == ReadSoFar(c, current, operand) + [tokens[0]]
  {
    match tokens[0]
    case Open => c', current', operand' := InParen(c), current, true;
    case Close =>
      c', current' := ReadClose(c, current);
      operand' := false;
    case Operator(op) =>
      if op == NOT {
        c', current', operand' := AfterNot(c), current, true;
      } else {
        c' := ReadOperator(c, current, op);
        current', operand' := current, true;
      }
    case Digit(value) => c', current', operand' := c, Lit(value), false;
    case Name(name) => c', current', operand' := c, Var(name), false;
  }

  /** Reading on from a context, in front of an operand or behind one. */
  lemma {:induction false} ReadOn(c: Context, current: Expr, operand: bool, tokens: seq<Token>) returns (e: Expr)
    requires Reading(c, current, operand) && WellFormedFrom(tokens, Depth(c), operand)
    ensures Shaped(e) && Tokens(e) == ReadSoFar(c, current, operand) + tokens
    decreases |tokens|
  {
    if tokens == [] {
      var top;
      top, e := CloseDown(c, current, 1);
    } else {
      var c', current', operand' := ReadToken(c, current, operand, tokens);
      e := ReadOn(c', current', operand', tokens[1..]);
      assert tokens == [tokens[0]] + tokens[1..];
      Reassociate(ReadSoFar(c, current, operand), [tokens[0]], tokens[1..]);
    }
  }

  /** Every well-formed token list is a formula whose tree the precedences fix. */
  lemma TreeExists(tokens: seq<Token>) returns (e: Expr)
    requires WellFormed(tokens)
    ensures Shaped(e) && Tokens(e) == tokens
  {
    e := ReadOn(Top, Lit(false), true, tokens);
  }
}
