/** Lexicographic order on prefixes of equally long sequences, and its rank. */
module LexOrder {

  ghost predicate EqualTo(s: seq<nat>, t: seq<nat>, k: nat)
    requires k <= |s| && k <= |t|
  {
    forall i :: 0 <= i < k ==> s[i] == t[i]
  }

  /** The first `k` positions of `s` are lexicographically below those of `t`. */
  ghost predicate Less(s: seq<nat>, t: seq<nat>, k: nat)
    requires k <= |s| && k <= |t|
  {
    k > 0 && (Less(s, t, k - 1) || (EqualTo(s, t, k - 1) && s[k - 1] < t[k - 1]))
  }

  ghost predicate LessEq(s: seq<nat>, t: seq<nat>, k: nat)
    requires k <= |s| && k <= |t|
  {
    Less(s, t, k) || EqualTo(s, t, k)
  }

  /** The order looks no further than the first difference. */
  lemma LessExtends(s: seq<nat>, t: seq<nat>, j: nat, k: nat)
    requires j <= k <= |s| && k <= |t|
    ensures Less(s, t, j) ==> Less(s, t, k)
    ensures !EqualTo(s, t, j) && Less(s, t, k) ==> Less(s, t, j)
    decreases k
  {
    if j < k {
      LessExtends(s, t, j, k - 1);
    }
  }

  lemma LessWitness(s: seq<nat>, t: seq<nat>, d: nat, k: nat)
    requires d < k <= |s| && k <= |t|
    requires EqualTo(s, t, d) && s[d] < t[d]
    ensures Less(s, t, k)
  {
    LessExtends(s, t, d + 1, k);
  }

  /** Less comes with the first position where the two sequences differ. */
  lemma FirstDifference(s: seq<nat>, t: seq<nat>, k: nat) returns (d: nat)
    requires k <= |s| && k <= |t| && Less(s, t, k)
    ensures d < k && EqualTo(s, t, d) && s[d] < t[d]
  {
    if Less(s, t, k - 1) {
      d := FirstDifference(s, t, k - 1);
    } else {
      d := k - 1;
    }
  }

  lemma Trichotomy(s: seq<nat>, t: seq<nat>, k: nat)
    requires k <= |s| && k <= |t|
    ensures Less(s, t, k) || EqualTo(s, t, k) || Less(t, s, k)
    ensures !(Less(s, t, k) && LessEq(t, s, k))
  {
    if k > 0 {
      Trichotomy(s, t, k - 1);
      if Less(s, t, k) && LessEq(t, s, k) {
        var d := FirstDifference(s, t, k);
        if Less(t, s, k) {
          var e := FirstDifference(t, s, k);
        }
      }
    }
  }

  // ---- Rank: the order is that of numbers written in a large enough base ----

  /** Multiplication by repeated addition keeps the ranks out of nonlinear arithmetic. */
  function Times(n: nat, base: nat): nat {
    if n == 0 then 0 else base + Times(n - 1, base)
  }

  lemma TimesMonotone(m: nat, n: nat, base: nat)
    requires m < n
    ensures Times(m, base) + base <= Times(n, base)
    decreases n
  {
    if m < n - 1 {
      TimesMonotone(m, n - 1, base);
    }
  }

  function Power(base: nat, n: nat): nat {
    if n == 0 then 1 else Times(Power(base, n - 1), base)
  }

  ghost predicate Digits(s: seq<nat>, base: nat) {
    forall i :: 0 <= i < |s| ==> s[i] < base
  }

  /** The first `k` places read as a number. */
  ghost function Rank(s: seq<nat>, base: nat, k: nat): nat
    requires k <= |s|
  {
    if k == 0 then 0 else Times(Rank(s, base, k - 1), base) + s[k - 1]
  }

  lemma RankBound(s: seq<nat>, base: nat, k: nat)
    requires Digits(s, base) && k <= |s|
    ensures Rank(s, base, k) < Power(base, k)
  {
    if k > 0 {
      RankBound(s, base, k - 1);
      TimesMonotone(Rank(s, base, k - 1), Power(base, k - 1), base);
    }
  }

  lemma RankOfEqual(s: seq<nat>, t: seq<nat>, base: nat, k: nat)
    requires k <= |s| && k <= |t| && EqualTo(s, t, k)
    ensures Rank(s, base, k) == Rank(t, base, k)
  {
    if k > 0 {
      RankOfEqual(s, t, base, k - 1);
    }
  }

  lemma RankMonotone(s: seq<nat>, t: seq<nat>, base: nat, k: nat)
    requires k <= |s| && k <= |t| && Digits(s, base) && Digits(t, base) && Less(s, t, k)
    ensures Rank(s, base, k) < Rank(t, base, k)
  {
    if Less(s, t, k - 1) {
      RankMonotone(s, t, base, k - 1);
      TimesMonotone(Rank(s, base, k - 1), Rank(t, base, k - 1), base);
    } else {
      RankOfEqual(s, t, base, k - 1);
    }
  }
}
