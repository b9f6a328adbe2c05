/**
 The diff of two configuration surfaces, from scripts/release-safety-config-diff.ts: what
 happened to each environment variable, with renames recognised by their usage.
 */
module ConfigDiff {
  import opened Options
  import opened Sequences
  import opened Sorting

  datatype Value = Value(defaultValue: Option<string>, usageSignature: string)

  type Surface = map<string, Value>

  datatype Change =
    | Removed(name: string, previousDefault: Option<string>)
    | Renamed(name: string, previousName: string, defaultValue: Option<string>)
    | DefaultChanged(name: string, oldDefault: Option<string>, newDefault: Option<string>)

  function NamesWith(s: Surface, signature: string): set<string> {
    set n | n in s && s[n].usageSignature == signature
  }

  /** `a` is gone, `b` is fresh, and each is the only variable of its surface used in their common way. */
  predicate Renames(before: Surface, after: Surface, a: string, b: string) {
    && a in before && a !in after && b in after && b !in before
    && before[a].usageSignature == after[b].usageSignature
    && NamesWith(before, before[a].usageSignature) == {a}
    && NamesWith(after, before[a].usageSignature) == {b}
  }

  ghost predicate HasNewName(before: Surface, after: Surface, a: string) { exists b :: Renames(before, after, a, b) }

  /** The change happened between the two surfaces. */
  ghost predicate Happened(c: Change, before: Surface, after: Surface) {
    match c
    case DefaultChanged(n, p, d) =>
      n in before && n in after && p == before[n].defaultValue && d == after[n].defaultValue && p != d
    case Removed(n, p) =>
      n in before && n !in after && p == before[n].defaultValue && !HasNewName(before, after, n)
    case Renamed(b, a, d) => Renames(before, after, a, b) && d == after[b].defaultValue
  }

  /** The variable of the old surface a change is about. */
  function OldName(c: Change): string { if c.Renamed? then c.previousName else c.name }

  // ---- The diff --------------------------------------------------------------------------------

  /** Each signature's names among those seen, each once. */
  predicate Groups(g: map<string, seq<string>>, s: Surface, seen: set<string>) {
    && (forall n :: n in seen && n in s ==> s[n].usageSignature in g && n in g[s[n].usageSignature])
    && (forall sig :: sig in g ==> g[sig] != [])
    && (forall sig, k :: sig in g && 0 <= k < |g[sig]| ==> g[sig][k] in seen && g[sig][k] in s && s[g[sig][k]].usageSignature == sig)
    && (forall sig, j, k :: sig in g && 0 <= j < k < |g[sig]| ==> g[sig][j] != g[sig][k])
  }

  method GroupedBySignature(s: Surface) returns (g: map<string, seq<string>>)
    ensures Groups(g, s, s.Keys)
  {
    g := map[];
    var left := s.Keys;
    while left != {}
      invariant left <= s.Keys && Groups(g, s, s.Keys - left)
    {
      var name :| name in left;
      var signature := s[name].usageSignature;
      var names := if signature in g then g[signature] else [];
      g := g[signature := names + [name]];
      left := left - {name};
    }
  }

  lemma AllAlike(names: seq<string>, n: string)
    requires names != [] && forall k :: 0 <= k < |names| ==> names[k] in {n}
    requires forall j, k :: 0 <= j < k < |names| ==> names[j] != names[k]
    ensures names == [n]
  {
    assert names[0] in {n} && names[|names| - 1] in {n};
  }

  lemma SingleGroup(g: map<string, seq<string>>, s: Surface, signature: string)
    requires Groups(g, s, s.Keys)
    ensures forall n :: signature in g && g[signature] == [n] ==> NamesWith(s, signature) == {n}
    ensures forall n :: NamesWith(s, signature) == {n} ==> signature in g && g[signature] == [n]
  {
    forall n | signature in g && g[signature] == [n] ensures NamesWith(s, signature) == {n} {
      assert g[signature][0] == n;
      forall m | m in NamesWith(s, signature) ensures m == n { assert m in g[signature]; }
    }
    forall n | NamesWith(s, signature) == {n} ensures signature in g && g[signature] == [n] {
      assert n in NamesWith(s, signature);
      var names := g[signature];
      assert forall k :: 0 <= k < |names| ==> names[k] in NamesWith(s, signature);
      AllAlike(names, n);
    }
  }

  /** The one name of a group. */
  function Only(g: map<string, seq<string>>, signature: string): Option<string> {
    if signature in g && |g[signature]| == 1 then Some(g[signature][0]) else None
  }

  lemma OnlyName(g: map<string, seq<string>>, s: Surface, signature: string)
    requires Groups(g, s, s.Keys)
    ensures forall n :: Only(g, signature) == Some(n) <==> NamesWith(s, signature) == {n}
  {
    SingleGroup(g, s, signature);
    if signature in g && |g[signature]| == 1 { assert g[signature] == [g[signature][0]]; }
  }

  /** The new name of a variable that is gone, if it has one. */
  method FindNewName(name: string, before: Surface, after: Surface,
                     oldNames: map<string, seq<string>>, newNames: map<string, seq<string>>) returns (r: Option<string>)
    requires name in before && name !in after
    requires Groups(oldNames, before, before.Keys) && Groups(newNames, after, after.Keys)
    ensures forall b :: r == Some(b) <==> Renames(before, after, name, b)
  {
    var signature := before[name].usageSignature;
    OnlyName(oldNames, before, signature);
    OnlyName(newNames, after, signature);
    assert name in NamesWith(before, signature);
    r := None;
    if Only(oldNames, signature).Some? {
      var renamedTo := Only(newNames, signature);
      if renamedTo.Some? {
        assert renamedTo.value in NamesWith(after, signature);
        if renamedTo.value !in before { r := renamedTo; }
      }
    }
  }

  /** Exactly what happened to the old surface's variables among those seen, one change each. */
  ghost predicate Lists(changes: seq<Change>, before: Surface, after: Surface, seen: set<string>) {
    && (forall c :: c in changes <==> Happened(c, before, after) && OldName(c) in seen)
    && (forall j, k :: 0 <= j < k < |changes| ==> OldName(changes[j]) != OldName(changes[k]))
  }

  method ChangeOf(name: string, before: Surface, after: Surface,
                  oldNames: map<string, seq<string>>, newNames: map<string, seq<string>>) returns (r: Option<Change>)
    requires name in before
    requires Groups(oldNames, before, before.Keys) && Groups(newNames, after, after.Keys)
    ensures forall c :: r == Some(c) <==> Happened(c, before, after) && OldName(c) == name
  {
    if name in after {
      r := if before[name].defaultValue != after[name].defaultValue
      then Some(DefaultChanged(name, before[name].defaultValue, after[name].defaultValue)) else None;
    } else {
      var renamedTo := FindNewName(name, before, after, oldNames, newNames);
      if renamedTo.Some? {
        assert Renames(before, after, name, renamedTo.value);
        r := Some(Renamed(renamedTo.value, name, after[renamedTo.value].defaultValue));
      } else {
        r := Some(Removed(name, before[name].defaultValue));
      }
    }
  }

  /** `Object.keys(...).sort()`. */
  method SortedNames(names: set<string>) returns (sorted: seq<string>)
    ensures SortedBy(sorted, (a: string, b: string) => AtMost(a, b))
    ensures NoRepeats(sorted) && forall n :: n in sorted <==> n in names
  {
    var listed: seq<string> := [];
    var left := names;
    while left != {}
      invariant left <= names && NoRepeats(listed) && forall n :: n in listed <==> n in names - left
    {
      var name :| name in left;
      assert name !in listed;
      listed := listed + [name];
      left := left - {name};
    }
    var order := (a: string, b: string) => AtMost(a, b);
    sorted := Sort(listed, order);
    AtMostIsOrder();
    SortSorts(listed, order);
    SortHolds(listed, order);
    SortKeepsDistinct(listed, order);
  }

  function TypeName(c: Change): string {
    match c
    case Removed(_, _) => "removed"
    case Renamed(_, _, _) => "renamed"
    case DefaultChanged(_, _, _) => "defaultChanged"
  }

  /** By old name and then by type, as the locale compares them. */
  function ByLocale(collation: string -> int): Order<Change> {
    (a: Change, b: Change) =>
      if collation(OldName(a)) != collation(OldName(b)) then collation(OldName(a)) < collation(OldName(b))
      else collation(TypeName(a)) <= collation(TypeName(b))
  }

  function ByName(): Order<Change> { (a: Change, b: Change) => AtMost(OldName(a), OldName(b)) }

  /** The old name that a change is about, and the name of its kind. */
  ghost predicate IsAbout(c: Change, name: string, kind: string) {
    match c
    case Removed(n, _) => name == n && kind == "removed"
    case Renamed(_, n, _) => name == n && kind == "renamed"
    case DefaultChanged(n, _, _) => name == n && kind == "defaultChanged"
  }

  /** By the locale's order of old names, then of kinds, and where it tells neither apart, by the characters of the names. */
  ghost predicate InOrder(a: Change, b: Change, collation: string -> int) {
    forall m, n, s, t :: IsAbout(a, m, s) && IsAbout(b, n, t) ==> NotBehind(m, n, s, t, collation)
  }

  ghost predicate NotBehind(m: string, n: string, s: string, t: string, collation: string -> int) {
    || collation(m) < collation(n)
    || (collation(m) == collation(n) && collation(s) < collation(t))
    || (collation(m) == collation(n) && collation(s) == collation(t) && (m == n || exists i: nat :: DiffersAt(m, n, i)))
  }

  lemma OrderExactly(a: Change, b: Change, collation: string -> int)
    ensures Then(ByLocale(collation), ByName())(a, b) <==> InOrder(a, b, collation)
  {
    hide IsAbout, NotBehind, Then, OldName, TypeName;
    NamesInOrder(a, b, collation);
    forall c: Change, name: string, kind: string ensures IsAbout(c, name, kind) <==> name == OldName(c) && kind == TypeName(c) {
      AboutExactly(c, name, kind);
    }
  }

  lemma NamesInOrder(a: Change, b: Change, collation: string -> int)
    ensures Then(ByLocale(collation), ByName())(a, b)
      <==> NotBehind(OldName(a), OldName(b), TypeName(a), TypeName(b), collation)
  {
    hide AtMost, DiffersAt, OldName, TypeName;
    AtMostExactly(OldName(a), OldName(b));
  }

  lemma AboutExactly(c: Change, name: string, kind: string)
    ensures IsAbout(c, name, kind) <==> name == OldName(c) && kind == TypeName(c)
  {}

  /**
   The changes between two surfaces, in the order of the locale and, where it does not tell
   two of them apart, in the order of the characters of the old names.
   */
  method DiffConfigSurfaces(before: Surface, after: Surface, collation: string -> int)
    returns (changes: seq<Change>, breaking: bool)
    ensures Lists(changes, before, after, before.Keys)
    ensures forall j, k :: 0 <= j < k < |changes| ==> InOrder(changes[j], changes[k], collation)
    ensures breaking <==> exists c :: Happened(c, before, after)
  {
    var found := FindChanges(before, after);
    changes := Sort(found, ByLocale(collation));
    assert IsOrder(ByLocale(collation));
    SortIsStable(found, ByLocale(collation), ByName());
    SortedLists(found, before, after, before.Keys, ByLocale(collation));
    forall j, k | 0 <= j < k < |changes| ensures InOrder(changes[j], changes[k], collation) {
      assert Then(ByLocale(collation), ByName())(changes[j], changes[k]);
      OrderExactly(changes[j], changes[k], collation);
    }
    breaking := |changes| > 0;
    if breaking { assert Happened(changes[0], before, after); }
    if c :| Happened(c, before, after) { assert OldName(c) in before.Keys && c in changes; }
  }

  method FindChanges(before: Surface, after: Surface) returns (changes: seq<Change>)
    ensures Lists(changes, before, after, before.Keys)
    ensures SortedBy(changes, ByName())
  {
    var oldNames := GroupedBySignature(before);
    var newNames := GroupedBySignature(after);
    var names := SortedNames(before.Keys);
    changes := [];
    for k := 0 to |names|
      invariant Lists(changes, before, after, NamesIn(names[..k]))
      invariant SortedBy(changes, ByName())
    {
      var name := names[k];
      var change := ChangeOf(name, before, after, oldNames, newNames);
      ghost var earlier := changes;
      if change.Some? { changes := changes + [change.value]; }
      NamesBefore(names, k);
      OneMoreName(earlier, changes, before, after, NamesIn(names[..k]), name, change);
      OneMoreSorted(earlier, names, k, before, after, change);
    }
    assert NamesIn(names[..|names|]) == before.Keys;
  }

  function NamesIn(names: seq<string>): set<string> { set n | n in names }

  lemma NamesBefore(names: seq<string>, k: nat)
    requires NoRepeats(names) && k < |names|
    ensures names[k] !in NamesIn(names[..k])
    ensures NamesIn(names[..k + 1]) == NamesIn(names[..k]) + {names[k]}
  {
    assert names[..k + 1] == names[..k] + [names[k]];
  }

  lemma OneMoreSorted(earlier: seq<Change>, names: seq<string>, k: nat, before: Surface, after: Surface, change: Option<Change>)
    requires k < |names| && SortedBy(names, (a: string, b: string) => AtMost(a, b))
    requires Lists(earlier, before, after, NamesIn(names[..k])) && SortedBy(earlier, ByName())
    requires change.Some? ==> OldName(change.value) == names[k]
    ensures change.Some? ==> SortedBy(earlier + [change.value], ByName())
  {
    if change.Some? {
      forall i | 0 <= i < |earlier| ensures ByName()(earlier[i], change.value) {
        assert earlier[i] in earlier;
        assert OldName(earlier[i]) in names[..k];
      }
    }
  }

  /** Sorting keeps the list of what happened. */
  lemma SortedLists(changes: seq<Change>, before: Surface, after: Surface, seen: set<string>, order: Order<Change>)
    requires Lists(changes, before, after, seen)
    ensures Lists(Sort(changes, order), before, after, seen)
  {
    var sorted := Sort(changes, order);
    SortHolds(changes, order);
    SortKeepsDistinct(changes, order);
    forall j, k | 0 <= j < k < |sorted| ensures OldName(sorted[j]) != OldName(sorted[k]) {
      assert sorted[j] in changes && sorted[k] in changes;
      var a :| 0 <= a < |changes| && changes[a] == sorted[j];
      var b :| 0 <= b < |changes| && changes[b] == sorted[k];
      assert a != b;
    }
  }

  lemma OneMoreName(earlier: seq<Change>, changes: seq<Change>, before: Surface, after: Surface, seen: set<string>,
                    name: string, change: Option<Change>)
    requires Lists(earlier, before, after, seen) && name !in seen
    requires forall c :: change == Some(c) <==> Happened(c, before, after) && OldName(c) == name
    requires changes == if change.Some? then earlier + [change.value] else earlier
    ensures Lists(changes, before, after, seen + {name})
  {
    forall c ensures c in changes <==> Happened(c, before, after) && OldName(c) in seen + {name} {
      if OldName(c) == name { assert c !in earlier; }
    }
    assert forall k :: 0 <= k < |earlier| ==> earlier[k] in earlier;
  }

  // ---- What the changes say -----------------------------------------------------------------------

  /** A variable that is gone was either removed or renamed, and one change says so. */
  lemma MissingNameHasOneChange(before: Surface, after: Surface, name: string) returns (c: Change)
    requires name in before && name !in after
    ensures Happened(c, before, after) && OldName(c) == name && (c.Removed? || c.Renamed?)
    ensures forall d :: Happened(d, before, after) && OldName(d) == name ==> d == c
  {
    if HasNewName(before, after, name) {
      var b :| Renames(before, after, name, b);
      c := Renamed(b, name, after[b].defaultValue);
    } else {
      c := Removed(name, before[name].defaultValue);
    }
    forall d | Happened(d, before, after) && OldName(d) == name ensures d == c {
      if d.Renamed? && c.Renamed? {
        assert d.name in NamesWith(after, before[name].usageSignature);
      }
      if d.Renamed? { assert Renames(before, after, name, d.name); }
    }
  }

  /** Two variables are never renamed to one, and one is never renamed to two. */
  lemma RenamesAreOneToOne(before: Surface, after: Surface, a: string, b: string, c: string, d: string)
    requires Renames(before, after, a, b) && Renames(before, after, c, d)
    ensures a == c <==> b == d
  {
    assert a in NamesWith(before, before[a].usageSignature) && c in NamesWith(before, before[c].usageSignature);
    assert b in NamesWith(after, before[a].usageSignature) && d in NamesWith(after, before[c].usageSignature);
  }

  /** The reversed diff's renames are exactly the inverse pairs. */
  lemma ReversedRenames(before: Surface, after: Surface, a: string, b: string)
    ensures (exists d :: Happened(Renamed(b, a, d), before, after)) <==> (exists d :: Happened(Renamed(a, b, d), after, before))
  {
    if Renames(before, after, a, b) {
      assert Happened(Renamed(b, a, after[b].defaultValue), before, after);
      assert Happened(Renamed(a, b, before[a].defaultValue), after, before);
    }
    if Renames(after, before, b, a) {
      assert Happened(Renamed(a, b, before[a].defaultValue), after, before);
      assert Happened(Renamed(b, a, after[b].defaultValue), before, after);
    }
  }

  /** Nothing is breaking exactly when every old variable is still there with its default. */
  lemma NothingHappened(before: Surface, after: Surface)
    ensures (forall c :: !Happened(c, before, after))
      <==> (forall n :: n in before ==> n in after && after[n].defaultValue == before[n].defaultValue)
  {
    if forall c :: !Happened(c, before, after) {
      forall n | n in before ensures n in after && after[n].defaultValue == before[n].defaultValue {
        if n !in after {
          var c := MissingNameHasOneChange(before, after, n);
        } else {
          assert !Happened(DefaultChanged(n, before[n].defaultValue, after[n].defaultValue), before, after);
        }
      }
    }
  }

  /** A surface all of whose variables get new names, each used in its own way. */
  predicate Relabelled(before: Surface, after: Surface, relabel: map<string, string>) {
    && relabel.Keys == before.Keys
    && (forall a :: a in before ==> relabel[a] in after && relabel[a] !in before && a !in after)
    && (forall a :: a in before ==> after[relabel[a]].usageSignature == before[a].usageSignature)
    && (forall b :: b in after ==> exists a :: a in before && relabel[a] == b)
    && (forall a, c :: a in before && c in before && a != c ==> before[a].usageSignature != before[c].usageSignature)
  }

  /** Every new name is found when the variables are told apart by their use. */
  lemma RelabellingIsFound(before: Surface, after: Surface, relabel: map<string, string>, c: Change)
    requires Relabelled(before, after, relabel)
    ensures Happened(c, before, after) <==>
      c.Renamed? && c.previousName in before && c.name == relabel[c.previousName] && c.defaultValue == after[c.name].defaultValue
  {
    var a := OldName(c);
    if a in before {
      var b, signature := relabel[a], before[a].usageSignature;
      forall n ensures n in NamesWith(before, signature) <==> n == a {}
      forall n ensures n in NamesWith(after, signature) <==> n == b {
        if n in NamesWith(after, signature) {
          var m :| m in before && relabel[m] == n;
        }
      }
      assert Renames(before, after, a, b);
      if c.Renamed? && Renames(before, after, a, c.name) { RenamesAreOneToOne(before, after, a, b, a, c.name); }
    }
  }
}
