/** Stable sorting by an order, and the order of strings by their characters. */
module Sorting {
  import opened Sequences

  type Order<!T> = (T, T) -> bool

  ghost predicate IsOrder<T(!new)>(atMost: Order<T>) {
    && (forall a, b :: atMost(a, b) || atMost(b, a))
    && (forall a, b, c :: atMost(a, b) && atMost(b, c) ==> atMost(a, c))
  }

  predicate SortedBy<T>(s: seq<T>, atMost: Order<T>) { forall i, j :: 0 <= i < j < |s| ==> atMost(s[i], s[j]) }

  /** In front of the first that is not lower. */
  function Insert<T>(x: T, s: seq<T>, atMost: Order<T>): seq<T> {
    if s == [] || atMost(x, s[0]) then [x] + s else [s[0]] + Insert(x, s[1..], atMost)
  }

  function Sort<T>(s: seq<T>, atMost: Order<T>): seq<T> {
    if s == [] then [] else Insert(s[0], Sort(s[1..], atMost), atMost)
  }

  lemma {:induction false} InsertHolds<T>(x: T, s: seq<T>, atMost: Order<T>)
    ensures multiset(Insert(x, s, atMost)) == multiset(s) + multiset{x}
  {
    if s != [] && !atMost(x, s[0]) {
      InsertHolds(x, s[1..], atMost);
      assert s == [s[0]] + s[1..];
    }
  }

  lemma {:induction false} SortHolds<T>(s: seq<T>, atMost: Order<T>)
    ensures multiset(Sort(s, atMost)) == multiset(s)
    ensures forall x :: x in Sort(s, atMost) <==> x in s
  {
    if s != [] {
      SortHolds(s[1..], atMost);
      InsertHolds(s[0], Sort(s[1..], atMost), atMost);
      assert s == [s[0]] + s[1..];
    }
    forall x ensures x in Sort(s, atMost) <==> x in s {
      assert x in Sort(s, atMost) <==> x in multiset(Sort(s, atMost));
    }
  }

  /** What goes in front of everything in a sorted list. */
  lemma FrontSorted<T>(x: T, s: seq<T>, atMost: Order<T>)
    requires SortedBy(s, atMost) && forall y :: y in s ==> atMost(x, y)
    ensures SortedBy([x] + s, atMost)
  {}

  lemma BackSorted<T>(s: seq<T>, atMost: Order<T>)
    requires SortedBy(s, atMost) && s != []
    ensures SortedBy(s[1..], atMost) && forall y :: y in s[1..] ==> atMost(s[0], y)
  {}

  /** Ordered by `atMost`, and where that ties, by `tie`. */
  function Then<T>(atMost: Order<T>, tie: Order<T>): Order<T> {
    (a: T, b: T) => atMost(a, b) && (atMost(b, a) ==> tie(a, b))
  }

  lemma {:induction false} InsertIsStable<T(!new)>(x: T, s: seq<T>, atMost: Order<T>, tie: Order<T>)
    requires IsOrder(atMost) && SortedBy(s, Then(atMost, tie)) && forall y :: y in s ==> tie(x, y)
    ensures SortedBy(Insert(x, s, atMost), Then(atMost, tie))
  {
    if s == [] {
    } else if atMost(x, s[0]) {
      BackSorted(s, Then(atMost, tie));
      forall y | y in s ensures Then(atMost, tie)(x, y) {
        assert y == s[0] || y in s[1..];
      }
      FrontSorted(x, s, Then(atMost, tie));
    } else {
      var tail := Insert(x, s[1..], atMost);
      BackSorted(s, Then(atMost, tie));
      InsertIsStable(x, s[1..], atMost, tie);
      InsertHolds(x, s[1..], atMost);
      forall y | y in tail ensures Then(atMost, tie)(s[0], y) {
        assert y in multiset(tail);
        assert y == x || y in s[1..];
      }
      FrontSorted(s[0], tail, Then(atMost, tie));
    }
  }

  /** A list in the order `tie` is sorted by `atMost`, and stays in the order `tie` where that does not tell. */
  lemma {:induction false} SortIsStable<T(!new)>(s: seq<T>, atMost: Order<T>, tie: Order<T>)
    requires IsOrder(atMost) && SortedBy(s, tie)
    ensures SortedBy(Sort(s, atMost), Then(atMost, tie))
  {
    if s != [] {
      BackSorted(s, tie);
      SortIsStable(s[1..], atMost, tie);
      SortHolds(s[1..], atMost);
      InsertIsStable(s[0], Sort(s[1..], atMost), atMost, tie);
    }
  }

  lemma SortSorts<T(!new)>(s: seq<T>, atMost: Order<T>)
    requires IsOrder(atMost)
    ensures SortedBy(Sort(s, atMost), atMost)
  {
    SortIsStable(s, atMost, (a: T, b: T) => true);
    forall i, j | 0 <= i < j < |Sort(s, atMost)| ensures atMost(Sort(s, atMost)[i], Sort(s, atMost)[j]) {
      assert Then(atMost, (a: T, b: T) => true)(Sort(s, atMost)[i], Sort(s, atMost)[j]);
    }
  }

  lemma {:induction false} NoRepeatsCounted<T>(s: seq<T>)
    ensures NoRepeats(s) <==> forall x :: multiset(s)[x] <= 1
  {
    if s != [] {
      NoRepeatsCounted(s[1..]);
      assert s == [s[0]] + s[1..];
      if NoRepeats(s) {
        forall x ensures multiset(s)[x] <= 1 {
          if x == s[0] { assert x !in s[1..]; }
        }
      } else if forall x :: multiset(s)[x] <= 1 {
        assert multiset(s)[s[0]] == 1 + multiset(s[1..])[s[0]];
        assert s[0] !in s[1..];
        forall x ensures multiset(s[1..])[x] <= 1 { assert multiset(s)[x] <= 1; }
      }
    }
  }

  lemma SortKeepsDistinct<T>(s: seq<T>, atMost: Order<T>)
    requires NoRepeats(s)
    ensures NoRepeats(Sort(s, atMost))
  {
    SortHolds(s, atMost);
    NoRepeatsCounted(s);
    NoRepeatsCounted(Sort(s, atMost));
  }

  // ---- Strings ------------------------------------------------------------------------------

  /** The order of `Array.prototype.sort` without a comparator. */
  predicate AtMost(a: string, b: string) {
    a == [] || (b != [] && (a[0] < b[0] || (a[0] == b[0] && AtMost(a[1..], b[1..]))))
  }

  /** The strings are the same up to `i`, where `a` ends or has the lower character. */
  ghost predicate DiffersAt(a: string, b: string, i: nat) {
    i <= |a| && i < |b| && a[..i] == b[..i] && (i == |a| || a[i] < b[i])
  }

  lemma SameStart(a: string, b: string, i: nat)
    ensures DiffersAt(a, b, i) && i > 0 ==> a[0] == b[0]
  {
    if DiffersAt(a, b, i) && i > 0 { assert a[..i][0] == b[..i][0]; }
  }

  lemma {:induction false} AtMostExactly(a: string, b: string)
    ensures AtMost(a, b) <==> a == b || exists i: nat :: DiffersAt(a, b, i)
  {
    if a != [] && b != [] && a[0] == b[0] {
      AtMostExactly(a[1..], b[1..]);
      assert a == [a[0]] + a[1..] && b == [b[0]] + b[1..];
      if i: nat :| DiffersAt(a[1..], b[1..], i) {
        assert a[..i + 1] == [a[0]] + a[1..][..i] && b[..i + 1] == [b[0]] + b[1..][..i];
        assert DiffersAt(a, b, i + 1);
      }
      if i: nat :| DiffersAt(a, b, i) {
        if i > 0 {
          assert a[1..][..i - 1] == a[..i][1..] && b[1..][..i - 1] == b[..i][1..];
          assert DiffersAt(a[1..], b[1..], i - 1);
        }
      }
    } else if a != [] && b != [] {
      assert a[0] < b[0] ==> DiffersAt(a, b, 0);
      forall i: nat ensures DiffersAt(a, b, i) && i > 0 ==> a[0] == b[0] { SameStart(a, b, i); }
    } else if b != [] {
      assert DiffersAt(a, b, 0);
    }
  }

  lemma {:induction false} AtMostTotal(a: string, b: string)
    ensures AtMost(a, b) || AtMost(b, a)
    ensures AtMost(a, b) && AtMost(b, a) ==> a == b
  {
    if a != [] && b != [] {
      AtMostTotal(a[1..], b[1..]);
      assert a == [a[0]] + a[1..] && b == [b[0]] + b[1..];
    }
  }

  lemma {:induction false} AtMostTransitive(a: string, b: string, c: string)
    requires AtMost(a, b) && AtMost(b, c)
    ensures AtMost(a, c)
  {
    if a != [] && b != [] && c != [] && a[0] == b[0] == c[0] { AtMostTransitive(a[1..], b[1..], c[1..]); }
  }

  lemma AtMostIsOrder()
    ensures IsOrder((a: string, b: string) => AtMost(a, b))
  {
    forall a, b ensures AtMost(a, b) || AtMost(b, a) { AtMostTotal(a, b); }
    forall a, b, c | AtMost(a, b) && AtMost(b, c) ensures AtMost(a, c) { AtMostTransitive(a, b, c); }
  }
}
