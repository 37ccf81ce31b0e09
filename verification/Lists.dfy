/** Lists without repetition and increasing lists. */
module Lists {

  ghost predicate Distinct<T>(s: seq<T>) {
    forall i, j :: 0 <= i < j < |s| ==> s[i] != s[j]
  }

  ghost predicate Climbs(s: seq<nat>) {
    forall i, j :: 0 <= i < j < |s| ==> s[i] < s[j]
  }

  lemma ClimbOn(s: seq<nat>, m: nat)
    requires Climbs(s) && forall k :: k in s ==> k < m
    ensures Climbs(s + [m])
  {
    forall i | 0 <= i < |s|
      ensures s[i] < m
    {
      assert s[i] in s;
    }
  }

  /** A list that has each member of a set once is as long as the set is large. */
  lemma {:induction false} DistinctCount<T>(s: seq<T>, members: set<T>)
    requires Distinct(s) && forall x :: x in s <==> x in members
    ensures |s| == |members|
    decreases |s|
  {
    if s == [] {
      assert members == {};
    } else {
      var last, front := s[|s| - 1], s[..|s| - 1];
      assert s == front + [last];
      DistinctCount(front, members - {last});
    }
  }
}
