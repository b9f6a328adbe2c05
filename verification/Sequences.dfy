/** Lists without repeats, and concatenation. */
module Sequences {
  predicate NoRepeats<T(==)>(s: seq<T>) { forall i, j :: 0 <= i < j < |s| ==> s[i] != s[j] }

  /** A list without repeats is no longer than the set it draws from. */
  lemma {:induction false} NoRepeatsFit<T>(p: seq<T>, s: set<T>)
    requires NoRepeats(p) && forall x :: x in p ==> x in s
    ensures |p| <= |s|
  {
    if p != [] {
      var last := p[|p| - 1];
      var front := p[..|p| - 1];
      forall x | x in front ensures x in s - {last} {
        var i :| 0 <= i < |front| && front[i] == x;
        assert p[i] == x && p[i] != p[|p| - 1];
      }
      NoRepeatsFit(front, s - {last});
    }
  }

  /** A list has at most as many members as places. */
  lemma {:induction false} MembersFit<T>(s: seq<T>)
    ensures |set x | x in s| <= |s|
  {
    if s != [] {
      var n := |s| - 1;
      MembersFit(s[..n]);
      assert (set x | x in s) == (set x | x in s[..n]) + {s[n]};
    }
  }

  lemma Regroup<T>(a: seq<T>, b: seq<T>, c: seq<T>)
    ensures (a + b) + c == a + (b + c)
  {}
}
