/**
 Release versions and the expand-version search of scripts/expand-version.ts: how far
 back a dropped object is known to be unused.
 */
module Versions {
  import opened Options

  datatype Version = Version(major: nat, minor: nat, patch: nat)

  function Part(v: Version, i: nat): nat {
    if i == 0 then v.major else if i == 1 then v.minor else v.patch
  }

  /** -1, 0 or 1 as `a` is before, at or after `b`. */
  function Compare(a: Version, b: Version): int {
    if a.major != b.major then (if a.major > b.major then 1 else -1)
    else if a.minor != b.minor then (if a.minor > b.minor then 1 else -1)
    else if a.patch != b.patch then (if a.patch > b.patch then 1 else -1)
    else 0
  }

  predicate Before(a: Version, b: Version) { Compare(a, b) < 0 }

  predicate AtMost(a: Version, b: Version) { Compare(a, b) <= 0 }

  /** Comparison is a total order whose ties are equal versions. */
  lemma CompareIsTotalOrder(a: Version, b: Version, c: Version)
    ensures Compare(a, b) == -Compare(b, a)
    ensures Compare(a, b) == 0 <==> a == b
    ensures AtMost(a, b) && AtMost(b, c) ==> AtMost(a, c)
    ensures AtMost(a, b) && Before(b, c) ==> Before(a, c)
    ensures Before(a, b) && AtMost(b, c) ==> Before(a, c)
  {}

  /** The first component that differs decides, from the left. */
  lemma BeforeByComponents(a: Version, b: Version)
    ensures Before(a, b) <==>
      a.major < b.major || (a.major == b.major && (a.minor < b.minor || (a.minor == b.minor && a.patch < b.patch)))
    ensures AtMost(a, b) <==> Before(a, b) || a == b
  {}

  method CompareVersions(a: Version, b: Version) returns (r: int)
    ensures r == Compare(a, b)
  {
    var i := 0;
    while i < 3
      invariant i <= 3
      invariant forall k: nat :: k < i ==> Part(a, k) == Part(b, k)
    {
      var d := Part(a, i) - Part(b, i);
      if d != 0 {
        assert i > 0 ==> Part(a, 0) == Part(b, 0);
        assert i > 1 ==> Part(a, 1) == Part(b, 1);
        return if d > 0 then 1 else -1;
      }
      i := i + 1;
    }
    assert Part(a, 0) == Part(b, 0) && Part(a, 1) == Part(b, 1) && Part(a, 2) == Part(b, 2);
    return 0;
  }

  // ---- Sorted lists of versions --------------------------------------------------------

  predicate Ascending(vs: seq<Version>) {
    forall i, j :: 0 <= i < j < |vs| ==> Before(vs[i], vs[j])
  }

  predicate Descending(vs: seq<Version>) {
    forall i, j :: 0 <= i < j < |vs| ==> AtMost(vs[j], vs[i])
  }

  /** The set's versions in ascending order. */
  function Sorted(s: set<Version>): seq<Version> {
    if s == {} then [] else Sorted(s - {Latest(s)}) + [Latest(s)]
  }

  lemma {:induction false} SortedLists(s: set<Version>)
    ensures Ascending(Sorted(s)) && forall v :: v in Sorted(s) <==> v in s
  {
    if s != {} {
      var last := Latest(s);
      var front := Sorted(s - {last});
      SortedLists(s - {last});
      assert forall k :: 0 <= k < |front| ==> front[k] in s - {last} && Before(front[k], last);
    }
  }

  predicate IsLatest(s: set<Version>, v: Version) {
    v in s && forall w :: w in s && w != v ==> Before(w, v)
  }

  function Latest(s: set<Version>): (r: Version)
    requires s != {}
    ensures IsLatest(s, r)
  {
    LatestExists(s);
    var v :| IsLatest(s, v);
    v
  }

  lemma {:induction false} LatestExists(s: set<Version>)
    requires s != {}
    ensures exists v :: IsLatest(s, v)
  {
    var x :| x in s;
    if s == {x} {
      assert IsLatest(s, x);
    } else {
      LatestExists(s - {x});
      var v :| IsLatest(s - {x}, v);
      if Before(x, v) {
        assert IsLatest(s, v);
      } else {
        forall w | w in s && w != x ensures Before(w, x) { CompareIsTotalOrder(w, v, x); }
        assert IsLatest(s, x);
      }
    }
  }

  // ---- How far back an object is unused --------------------------------------------------

  /** `floor` is the last of the youngest tags in a row at which `present` is false. */
  ghost predicate IsFloor(tags: seq<Version>, present: Version -> bool, floor: Option<Version>) {
    if tags == [] || present(tags[0]) then floor == None
    else exists n :: 0 <= n < |tags| && floor == Some(tags[n]) && IsLastAbsent(tags, present, n)
  }

  predicate IsLastAbsent(tags: seq<Version>, present: Version -> bool, n: nat)
    requires n < |tags|
  {
    && (forall k :: 0 <= k <= n ==> !present(tags[k]))
    && (n + 1 < |tags| ==> present(tags[n + 1]))
  }

  lemma FloorUnique(tags: seq<Version>, present: Version -> bool, a: Option<Version>, b: Option<Version>)
    requires IsFloor(tags, present, a) && IsFloor(tags, present, b)
    ensures a == b
  {}

  method SelectFloor(tags: seq<Version>, present: Version -> bool) returns (floor: Option<Version>)
    ensures IsFloor(tags, present, floor)
  {
    if |tags| == 0 { return None; }
    if present(tags[0]) { return None; }
    floor := Some(tags[0]);
    for i := 1 to |tags|
      invariant floor == Some(tags[i - 1])
      invariant forall k :: 0 <= k < i ==> !present(tags[k])
    {
      if present(tags[i]) { return; }
      floor := Some(tags[i]);
    }
  }

  /** Names long enough to be searched for, each once, in first-seen order. */
  function Specific(objects: seq<string>): (r: seq<string>)
    ensures forall o :: o in r <==> o in objects && |o| >= 4
  {
    if objects == [] then []
    else
      var front := Specific(objects[..|objects| - 1]);
      var last := objects[|objects| - 1];
      if |last| >= 4 && last !in front then front + [last] else front
  }

  /** Is this object still referenced at a tag? */
  function Present(name: string, presentAt: (Version, string) -> bool): Version -> bool {
    (tag: Version) => presentAt(tag, name)
  }

  /** Is one of the objects still referenced at a tag? */
  function AnyPresent(objects: seq<string>, presentAt: (Version, string) -> bool): Version -> bool {
    (tag: Version) => exists k :: 0 <= k < |objects| && presentAt(tag, objects[k])
  }

  /**
   The oldest release every dropped object was already unused in. Taking the youngest of
   the objects' own floors is one search for "some object is present".
   */
  method FindExpandFloor(objects: seq<string>, tags: seq<Version>, presentAt: (Version, string) -> bool)
    returns (overall: Option<Version>)
    requires Descending(tags)
    ensures Specific(objects) == [] ==> overall == None
    ensures Specific(objects) != [] ==> IsFloor(tags, AnyPresent(Specific(objects), presentAt), overall)
  {
    var names := Specific(objects);
    if |names| == 0 { return None; }
    if |tags| == 0 { return None; }
    overall := None;
    for i := 0 to |names|
      invariant i == 0 ==> overall == None
      invariant i > 0 ==> overall.Some? && IsFloor(tags, AnyPresent(names[..i], presentAt), overall)
    {
      var name := names[i];
      var floor := SelectFloor(tags, Present(name, presentAt));
      if floor.None? {
        assert AnyPresent(names, presentAt)(tags[0]) by { assert presentAt(tags[0], names[i]); }
        return None;
      }
      ghost var before := overall;
      if overall.None? {
        overall := floor;
      } else {
        var order := CompareVersions(floor.value, overall.value);
        if order > 0 { overall := floor; }
      }
      FloorOfOneMore(tags, names, i, presentAt, before, floor, overall);
    }
    assert names[..|names|] == names;
  }

  /** What is absent in both senses is absent as long as in the shorter one. */
  lemma EitherAbsent(tags: seq<Version>, any: Version -> bool, one: Version -> bool, all: Version -> bool,
                     n: nat, m: nat)
    requires n < |tags| && m < |tags| && IsLastAbsent(tags, any, n) && IsLastAbsent(tags, one, m)
    requires forall tag :: all(tag) <==> any(tag) || one(tag)
    ensures IsLastAbsent(tags, all, if m < n then m else n)
  {}

  /** Adding an object moves the common floor to the younger of the two floors. */
  lemma FloorOfOneMore(tags: seq<Version>, names: seq<string>, i: nat, presentAt: (Version, string) -> bool,
                       before: Option<Version>, floor: Option<Version>, after: Option<Version>)
    requires Descending(tags) && tags != [] && i < |names|
    requires floor.Some? && IsFloor(tags, Present(names[i], presentAt), floor)
    requires i > 0 ==> before.Some? && IsFloor(tags, AnyPresent(names[..i], presentAt), before)
    requires after == if i == 0 || Before(before.value, floor.value) then floor else before
    ensures IsFloor(tags, AnyPresent(names[..i + 1], presentAt), after)
  {
    var any, all := AnyPresent(names[..i], presentAt), AnyPresent(names[..i + 1], presentAt);
    forall tag ensures all(tag) <==> any(tag) || presentAt(tag, names[i]) {
      OneMorePresent(names, i, presentAt, tag);
    }
    var one := Present(names[i], presentAt);
    var m :| 0 <= m < |tags| && floor == Some(tags[m]) && IsLastAbsent(tags, one, m);
    if i == 0 {
      assert IsLastAbsent(tags, all, m);
    } else {
      var n :| 0 <= n < |tags| && before == Some(tags[n]) && IsLastAbsent(tags, any, n);
      CompareIsTotalOrder(tags[m], tags[n], tags[m]);
      EitherAbsent(tags, any, one, all, n, m);
    }
  }

  lemma OneMorePresent(names: seq<string>, i: nat, presentAt: (Version, string) -> bool, tag: Version)
    requires i < |names|
    ensures AnyPresent(names[..i + 1], presentAt)(tag) <==>
      AnyPresent(names[..i], presentAt)(tag) || presentAt(tag, names[i])
  {
    var more, less := names[..i + 1], names[..i];
    assert more[i] == names[i];
    assert forall k :: 0 <= k < i ==> less[k] == more[k];
  }
}
