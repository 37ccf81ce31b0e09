/** Assignments of variables and rows of the truth table, and which formulas need gates: a
    formula that is neither constant nor the value of one variable. */
module Assignments {
  import opened Bits
  import opened Networks
  import opened Formulas
  import opened Evaluating
  import opened Lists
  import opened TableRows

  // ---- The row of an assignment ----

  ghost function RowOf(env: string -> bool, names: seq<string>, m: nat): nat
    requires m <= |names|
  {
    if m == 0 then 0 else RowOf(env, names, m - 1) + if env(names[m - 1]) then Pow2(m - 1) else 0
  }

  lemma {:induction false} RowOfBits(env: string -> bool, names: seq<string>, m: nat, k: nat)
    requires m <= |names|
    ensures RowOf(env, names, m) < Pow2(m)
    ensures Bit(RowOf(env, names, m), k) == (k < m && env(names[k]))
  {
    if m == 0 {
      HighBitClear(0, k);
    } else {
      RowOfBits(env, names, m - 1, k);
      if env(names[m - 1]) {
        UpperHalf(m - 1, RowOf(env, names, m - 1), k);
      }
    }
  }

  lemma RowAssigns(env: string -> bool, names: seq<string>)
    ensures RowOf(env, names, |names|) < Pow2(|names|) && Assigns(env, names, RowOf(env, names, |names|))
  {
    RowOfBits(env, names, |names|, 0);
    forall i | 0 <= i < |names|
      ensures env(names[i]) == Bit(RowOf(env, names, |names|), i)
    {
      RowOfBits(env, names, |names|, i);
    }
  }

  /** Some assignment that belongs to row `l`; other names than these get the value `other`. */
  ghost function ValueOf(names: seq<string>, l: nat, other: bool, name: string): bool {
    if names == [] then other
    else if names[|names| - 1] == name then Bit(l, |names| - 1)
    else ValueOf(names[..|names| - 1], l, other, name)
  }

  ghost function RowEnv(names: seq<string>, l: nat, other: bool): string -> bool {
    name => ValueOf(names, l, other, name)
  }

  lemma {:induction false} ValueOfName(names: seq<string>, l: nat, other: bool, i: nat)
    requires Distinct(names) && i < |names|
    ensures ValueOf(names, l, other, names[i]) == Bit(l, i)
    decreases |names|
  {
    if i < |names| - 1 {
      assert names[..|names| - 1][i] == names[i];
      ValueOfName(names[..|names| - 1], l, other, i);
    }
  }

  lemma {:induction false} ValueOfOther(names: seq<string>, l: nat, other: bool, name: string)
    requires name !in names
    ensures ValueOf(names, l, other, name) == other
    decreases |names|
  {
    if names != [] {
      ValueOfOther(names[..|names| - 1], l, other, name);
    }
  }

  lemma RowEnvAssigns(names: seq<string>, l: nat, other: bool)
    requires Distinct(names)
    ensures Assigns(RowEnv(names, l, other), names, l)
  {
    forall i | 0 <= i < |names|
      ensures RowEnv(names, l, other)(names[i]) == Bit(l, i)
    {
      ValueOfName(names, l, other, i);
    }
  }

  // ---- Formulas that need gates ----

  ghost predicate IsConstant(e: Expr) {
    forall a: string -> bool, b: string -> bool :: Meaning(e, a) == Meaning(e, b)
  }

  ghost predicate IsVariable(e: Expr, name: string) {
    forall env: string -> bool :: Meaning(e, env) == env(name)
  }

  /** The formula is neither constant nor the value of a variable, whatever it looks like. */
  ghost predicate NeedsGates(e: Expr) {
    !IsConstant(e) && forall name :: !IsVariable(e, name)
  }

  /** The column of the formula in the truth table over these names. */
  ghost predicate TableOf(c: Column, e: Expr, names: seq<string>) {
    |c| == Pow2(|names|) && forall env: string -> bool, l: nat :: l < |c| && Assigns(env, names, l) ==> Meaning(e, env) == c[l]
  }

  lemma ConstantFormula(c: Column, e: Expr, names: seq<string>)
    requires TableOf(c, e, names) && Distinct(names)
    ensures Networks.Constant(c) <==> IsConstant(e)
  {
    if Networks.Constant(c) {
      forall a: string -> bool, b: string -> bool
        ensures Meaning(e, a) == Meaning(e, b)
      {
        RowAssigns(a, names);
        RowAssigns(b, names);
      }
    }
    if IsConstant(e) {
      forall i, j | 0 <= i < |c| && 0 <= j < |c|
        ensures c[i] == c[j]
      {
        RowEnvAssigns(names, i, false);
        RowEnvAssigns(names, j, false);
        assert Meaning(e, RowEnv(names, i, false)) == Meaning(e, RowEnv(names, j, false));
      }
    }
  }

  lemma VariableFormula(c: Column, e: Expr, names: seq<string>, m: nat)
    requires TableOf(c, e, names) && Distinct(names) && m < |names|
    ensures CopyOf(c, m) <==> IsVariable(e, names[m])
  {
    if CopyOf(c, m) {
      forall env: string -> bool
        ensures Meaning(e, env) == env(names[m])
      {
        RowAssigns(env, names);
      }
    }
    if IsVariable(e, names[m]) {
      forall row | 0 <= row < |c|
        ensures c[row] == Bit(row, m)
      {
        RowEnvAssigns(names, row, false);
        assert Meaning(e, RowEnv(names, row, false)) == RowEnv(names, row, false)(names[m]);
      }
    }
  }

  /** A formula cannot be the value of a name that is not in the table. */
  lemma OtherVariable(c: Column, e: Expr, names: seq<string>, name: string)
    requires TableOf(c, e, names) && Distinct(names) && name !in names
    ensures !IsVariable(e, name)
  {
    var a, b := RowEnv(names, 0, false), RowEnv(names, 0, true);
    RowEnvAssigns(names, 0, false);
    RowEnvAssigns(names, 0, true);
    ValueOfOther(names, 0, false, name);
    ValueOfOther(names, 0, true, name);
    assert Meaning(e, a) == Meaning(e, b) && a(name) != b(name);
  }

  /** The columns that are neither constant nor copies belong to the formulas that need gates. */
  lemma ProperNeedsGates(c: Column, e: Expr, names: seq<string>)
    requires TableOf(c, e, names) && Distinct(names)
    ensures Proper(c, |names|) <==> NeedsGates(e)
  {
    ConstantFormula(c, e, names);
    forall m | 0 <= m < |names|
      ensures CopyOf(c, m) <==> IsVariable(e, names[m])
    {
      VariableFormula(c, e, names, m);
    }
    forall name
      ensures IsVariable(e, name) ==> name in names
    {
      if name !in names {
        OtherVariable(c, e, names, name);
      }
    }
  }
}
