/**
 The registry of breaking-change declarations and its diff, from
 scripts/release-safety-declarations.ts. The registry is append-only; a whole chain of
 releases can be checked step by step or from end to end.
 */
module Declarations {
  import opened Options
  import opened Sequences
  import opened Sorting

  datatype Entry = Entry(reason: string, requiredStop: bool, migration: Option<string>, releasedIn: Option<string>)

  type Registry = map<string, Entry>

  /** What a registry file parses to, and whether the parser had nothing to say about it. */
  datatype Parsed = Parsed(declarations: Registry, sound: bool)

  datatype Declaration = Declaration(id: string, entry: Entry)

  datatype Diagnostic = Unsound | Removed(id: string) | Changed(id: string) | Duplicate(id: string, of: string)

  // ---- One diff -------------------------------------------------------------------------

  /** The part of an entry that may never be declared a second time. */
  datatype Content = Content(reason: string, requiredStop: bool)

  function ContentOf(e: Entry): Content { Content(e.reason, e.requiredStop) }

  /** A published entry stands; only an unreleased one may still be stamped with its release. */
  predicate Keeps(before: Entry, after: Entry) {
    && before.reason == after.reason && before.requiredStop == after.requiredStop
    && before.migration == after.migration
    && (before.releasedIn.Some? ==> before.releasedIn == after.releasedIn)
  }

  /** An entry is kept exactly when it is the same, or was unreleased and only its release has changed. */
  lemma KeepsExactly(before: Entry, after: Entry)
    ensures Keeps(before, after) <==>
      after == before || (before.releasedIn == None && after == before.(releasedIn := after.releasedIn))
  {}

  lemma ContentExactly(a: Entry, b: Entry)
    ensures ContentOf(a) == ContentOf(b) <==> a.reason == b.reason && a.requiredStop == b.requiredStop
  {}

  predicate Extends(base: Registry, target: Registry) {
    forall id :: id in base ==> id in target && Keeps(base[id], target[id])
  }

  predicate Declares(base: Registry, content: Content) {
    exists id :: id in base && ContentOf(base[id]) == content
  }

  predicate IsFresh(base: Registry, target: Registry, id: string) { id in target && id !in base }

  predicate IsAdded(base: Registry, target: Registry, id: string) {
    IsFresh(base, target, id) && !Declares(base, ContentOf(target[id]))
  }

  /** Nothing removed, nothing changed, nothing declared twice. */
  ghost predicate Clean(base: Registry, target: Registry) {
    Extends(base, target) && forall id :: IsFresh(base, target, id) ==> IsAdded(base, target, id)
  }

  /** Exactly the complaints the two registries deserve. */
  predicate Earned(d: Diagnostic, base: Registry, target: Registry) {
    match d
    case Unsound => true
    case Removed(id) => id in base && id !in target
    case Changed(id) => id in base && id in target && !Keeps(base[id], target[id])
    case Duplicate(id, of) =>
      IsFresh(base, target, id) && of in base && ContentOf(base[of]) == ContentOf(target[id])
  }

  /** `contents` maps each content of the ids seen to one of them. */
  predicate Indexes(contents: map<Content, string>, base: Registry, seen: set<string>) {
    && (forall id :: id in seen && id in base ==> ContentOf(base[id]) in contents)
    && (forall c :: c in contents ==> contents[c] in base && ContentOf(base[contents[c]]) == c)
  }

  method IndexContents(base: Registry) returns (contents: map<Content, string>)
    ensures Indexes(contents, base, base.Keys)
  {
    contents := map[];
    var left := base.Keys;
    while left != {}
      invariant left <= base.Keys && Indexes(contents, base, base.Keys - left)
    {
      var id :| id in left;
      contents := contents[ContentOf(base[id]) := id];
      left := left - {id};
    }
  }

  method CheckKept(base: Registry, target: Registry) returns (diagnostics: seq<Diagnostic>)
    ensures diagnostics == [] <==> Extends(base, target)
    ensures forall d :: d in diagnostics ==> Earned(d, base, target) && (d.Removed? || d.Changed?)
    ensures forall id :: id in base && id !in target ==> Removed(id) in diagnostics
    ensures forall id :: id in base && id in target && !Keeps(base[id], target[id]) ==> Changed(id) in diagnostics
  {
    diagnostics := [];
    var left := base.Keys;
    while left != {}
      invariant left <= base.Keys
      invariant forall d :: d in diagnostics ==> Earned(d, base, target) && (d.Removed? || d.Changed?)
      invariant forall id :: id in base && id !in left && id !in target ==> Removed(id) in diagnostics
      invariant forall id :: id in base && id !in left && id in target && !Keeps(base[id], target[id]) ==> Changed(id) in diagnostics
    {
      var id :| id in left;
      if id !in target {
        diagnostics := diagnostics + [Removed(id)];
      } else if !Keeps(base[id], target[id]) {
        diagnostics := diagnostics + [Changed(id)];
      }
      left := left - {id};
    }
    if diagnostics != [] { assert Earned(diagnostics[0], base, target); }
  }

  /** Some declaration is named that `id` repeats. */
  ghost predicate IsReported(diagnostics: seq<Diagnostic>, id: string) {
    exists of :: Duplicate(id, of) in diagnostics
  }

  lemma ReportMore(diagnostics: seq<Diagnostic>, id: string, of: string)
    ensures IsReported(diagnostics + [Duplicate(id, of)], id)
    ensures forall i :: IsReported(diagnostics, i) ==> IsReported(diagnostics + [Duplicate(id, of)], i)
  {
    assert Duplicate(id, of) in diagnostics + [Duplicate(id, of)];
    forall i | IsReported(diagnostics, i) ensures IsReported(diagnostics + [Duplicate(id, of)], i) {
      var o :| Duplicate(i, o) in diagnostics;
      assert Duplicate(i, o) in diagnostics + [Duplicate(id, of)];
    }
  }

  /** What has been collected once the ids `seen` have been visited. */
  ghost predicate Collected(added: seq<Declaration>, diagnostics: seq<Diagnostic>, base: Registry, target: Registry, seen: set<string>) {
    && IsAddedList(added, base, target, seen)
    && (forall d :: d in diagnostics ==> d.Duplicate? && Earned(d, base, target))
    && (forall id :: id in seen && IsFresh(base, target, id) && !IsAdded(base, target, id) ==> IsReported(diagnostics, id))
  }

  lemma CollectDuplicate(added: seq<Declaration>, diagnostics: seq<Diagnostic>, base: Registry, target: Registry,
                         seen: set<string>, id: string, of: string)
    requires Collected(added, diagnostics, base, target, seen) && Earned(Duplicate(id, of), base, target)
    ensures Collected(added, diagnostics + [Duplicate(id, of)], base, target, seen + {id})
  {
    hide IsReported;
    ReportMore(diagnostics, id, of);
    assert !IsAdded(base, target, id);
  }

  lemma CollectNew(added: seq<Declaration>, diagnostics: seq<Diagnostic>, base: Registry, target: Registry,
                   seen: set<string>, id: string)
    requires Collected(added, diagnostics, base, target, seen) && IsAdded(base, target, id) && id !in seen
    ensures Collected(added + [Declaration(id, target[id])], diagnostics, base, target, seen + {id})
  {
    hide IsReported, Earned, Declares;
  }

  lemma CollectOld(added: seq<Declaration>, diagnostics: seq<Diagnostic>, base: Registry, target: Registry,
                   seen: set<string>, id: string)
    requires Collected(added, diagnostics, base, target, seen) && id in base
    ensures Collected(added, diagnostics, base, target, seen + {id})
  {}

  method CollectAdded(base: Registry, target: Registry) returns (added: seq<Declaration>, diagnostics: seq<Diagnostic>)
    ensures IsAddedList(added, base, target, target.Keys)
    ensures diagnostics == [] <==> forall id :: IsFresh(base, target, id) ==> IsAdded(base, target, id)
    ensures forall d :: d in diagnostics ==> d.Duplicate? && Earned(d, base, target)
    ensures forall id :: IsFresh(base, target, id) && !IsAdded(base, target, id) ==> IsReported(diagnostics, id)
  {
    var contents := IndexContents(base);
    added, diagnostics := VisitTarget(base, target, contents);
    if diagnostics != [] { assert Earned(diagnostics[0], base, target); }
  }

  method VisitTarget(base: Registry, target: Registry, contents: map<Content, string>)
    returns (added: seq<Declaration>, diagnostics: seq<Diagnostic>)
    requires Indexes(contents, base, base.Keys)
    ensures Collected(added, diagnostics, base, target, target.Keys)
  {
    hide Collected;
    added, diagnostics := [], [];
    var left := target.Keys;
    ghost var seen: set<string> := {};
    NothingCollected(base, target);
    while left != {}
      invariant left <= target.Keys && seen == target.Keys - left
      invariant Collected(added, diagnostics, base, target, seen)
    {
      var id :| id in left;
      if id in base {
        CollectOld(added, diagnostics, base, target, seen, id);
      } else {
        var content := ContentOf(target[id]);
        if content in contents {
          CollectDuplicate(added, diagnostics, base, target, seen, id, contents[content]);
          diagnostics := diagnostics + [Duplicate(id, contents[content])];
        } else {
          CollectNew(added, diagnostics, base, target, seen, id);
          added := added + [Declaration(id, target[id])];
        }
      }
      left := left - {id};
      seen := seen + {id};
    }
    assert seen == target.Keys;
  }

  lemma NothingCollected(base: Registry, target: Registry)
    ensures Collected([], [], base, target, {})
  {}

  /** Each added id among those seen, once, with its entry. */
  predicate IsAddedList(added: seq<Declaration>, base: Registry, target: Registry, seen: set<string>) {
    && (forall k :: 0 <= k < |added| ==> added[k].id in seen && IsAdded(base, target, added[k].id))
    && (forall k :: 0 <= k < |added| ==> added[k].entry == target[added[k].id])
    && (forall j, k :: 0 <= j < k < |added| ==> added[j].id != added[k].id)
    && (forall id :: id in seen && IsAdded(base, target, id) ==> Declaration(id, target[id]) in added)
  }

  /** Every complaint that the two registries deserve is made. */
  ghost predicate Complete(diagnostics: seq<Diagnostic>, base: Registry, target: Registry) {
    && (forall id :: id in base && id !in target ==> Removed(id) in diagnostics)
    && (forall id :: id in base && id in target && !Keeps(base[id], target[id]) ==> Changed(id) in diagnostics)
    && (forall id :: IsFresh(base, target, id) && !IsAdded(base, target, id) ==> IsReported(diagnostics, id))
  }

  function ById(collation: string -> int): Order<Declaration> {
    (a: Declaration, b: Declaration) => collation(a.id) <= collation(b.id)
  }

  /**
   The diff is silent exactly on a clean step between sound registries, makes exactly the
   complaints they deserve, and lists what the step adds in the order of the locale.
   */
  method DiffBreakingChangeDeclarations(base: Parsed, target: Parsed, collation: string -> int)
    returns (added: seq<Declaration>, diagnostics: seq<Diagnostic>)
    ensures diagnostics == [] <==> base.sound && target.sound && Clean(base.declarations, target.declarations)
    ensures forall d :: d in diagnostics ==> Earned(d, base.declarations, target.declarations)
    ensures Complete(diagnostics, base.declarations, target.declarations)
    ensures Unsound in diagnostics <==> !base.sound || !target.sound
    ensures IsAddedList(added, base.declarations, target.declarations, target.declarations.Keys)
    ensures forall j, k :: 0 <= j < k < |added| ==> collation(added[j].id) <= collation(added[k].id)
  {
    hide Clean, IsAddedList, Earned;
    var found;
    found, diagnostics := FindAdded(base, target);
    added := Sort(found, ById(collation));
    assert IsOrder(ById(collation));
    SortSorts(found, ById(collation));
    SortedAddedList(found, base.declarations, target.declarations, target.declarations.Keys, ById(collation));
  }

  method FindAdded(base: Parsed, target: Parsed) returns (added: seq<Declaration>, diagnostics: seq<Diagnostic>)
    ensures diagnostics == [] <==> base.sound && target.sound && Clean(base.declarations, target.declarations)
    ensures forall d :: d in diagnostics ==> Earned(d, base.declarations, target.declarations)
    ensures Complete(diagnostics, base.declarations, target.declarations)
    ensures Unsound in diagnostics <==> !base.sound || !target.sound
    ensures IsAddedList(added, base.declarations, target.declarations, target.declarations.Keys)
  {
    hide Extends, IsAdded, IsAddedList;
    var unsound := (if base.sound then [] else [Unsound]) + (if target.sound then [] else [Unsound]);
    var kept := CheckKept(base.declarations, target.declarations);
    var twice;
    added, twice := CollectAdded(base.declarations, target.declarations);
    diagnostics := unsound + kept + twice;
    ReportedAmongOthers(unsound + kept, twice);
  }

  lemma ReportedAmongOthers(others: seq<Diagnostic>, twice: seq<Diagnostic>)
    ensures forall id :: IsReported(twice, id) ==> IsReported(others + twice, id)
  {
    forall id | IsReported(twice, id) ensures IsReported(others + twice, id) {
      var of :| Duplicate(id, of) in twice;
      assert Duplicate(id, of) in others + twice;
    }
  }

  /** Sorting keeps the list of what is added. */
  lemma SortedAddedList(added: seq<Declaration>, base: Registry, target: Registry, seen: set<string>, order: Order<Declaration>)
    requires IsAddedList(added, base, target, seen)
    ensures IsAddedList(Sort(added, order), base, target, seen)
  {
    var sorted := Sort(added, order);
    SortHolds(added, order);
    SortKeepsDistinct(added, order);
    forall k | 0 <= k < |sorted|
      ensures sorted[k].id in seen && IsAdded(base, target, sorted[k].id) && sorted[k].entry == target[sorted[k].id]
    {
      assert sorted[k] in added;
    }
  }

  // ---- Chains of releases -----------------------------------------------------------------

  predicate ExtendingChain(chain: seq<Registry>) {
    forall k :: 0 < k < |chain| ==> Extends(chain[k - 1], chain[k])
  }

  ghost predicate CleanStep(chain: seq<Registry>, k: int)
    requires 0 < k < |chain|
  {
    Clean(chain[k - 1], chain[k])
  }

  /** Every consecutive diff is clean. */
  ghost predicate CleanChain(chain: seq<Registry>) {
    forall k :: 0 < k < |chain| ==> CleanStep(chain, k)
  }

  lemma ExtendsTransitive(a: Registry, b: Registry, c: Registry)
    requires Extends(a, b) && Extends(b, c)
    ensures Extends(a, c)
  {
    forall id | id in a ensures id in c && Keeps(a[id], c[id]) {
      assert Keeps(a[id], b[id]) && Keeps(b[id], c[id]);
    }
  }

  lemma {:induction false} ChainExtends(chain: seq<Registry>, j: nat, k: nat)
    requires ExtendingChain(chain) && j <= k < |chain|
    ensures Extends(chain[j], chain[k])
    decreases k
  {
    if j < k {
      ChainExtends(chain, j, k - 1);
      ExtendsTransitive(chain[j], chain[k - 1], chain[k]);
    }
  }

  lemma CleanChainExtends(chain: seq<Registry>)
    requires CleanChain(chain)
    ensures ExtendingChain(chain)
  {
    forall k | 0 < k < |chain| ensures Extends(chain[k - 1], chain[k]) { assert CleanStep(chain, k); }
  }

  /** The step at which an id enters the chain. */
  predicate BornAt(chain: seq<Registry>, id: string, k: int) {
    0 <= k < |chain| && id in chain[k] && (k > 0 ==> id !in chain[k - 1])
  }

  lemma {:induction false} BirthExists(chain: seq<Registry>, id: string, k: nat) returns (b: nat)
    requires k < |chain| && id in chain[k]
    ensures b <= k && BornAt(chain, id, b)
  {
    if k > 0 && id in chain[k - 1] {
      b := BirthExists(chain, id, k - 1);
    } else {
      b := k;
    }
  }

  /** Ids never leave an extending chain, so each has one birth. */
  lemma BirthUnique(chain: seq<Registry>, id: string, j: nat, k: nat)
    requires ExtendingChain(chain) && BornAt(chain, id, j) && BornAt(chain, id, k)
    ensures j == k
  {
    if j < k { ChainExtends(chain, j, k - 1); }
    if k < j { ChainExtends(chain, k, j - 1); }
  }

  /** A chain of clean steps is clean from end to end. */
  lemma CleanEndToEnd(chain: seq<Registry>)
    requires CleanChain(chain) && chain != []
    ensures Clean(chain[0], chain[|chain| - 1])
  {
    var last := |chain| - 1;
    CleanChainExtends(chain);
    ChainExtends(chain, 0, last);
    forall id | IsFresh(chain[0], chain[last], id) ensures IsAdded(chain[0], chain[last], id) {
      var b := BirthExists(chain, id, last);
      ChainExtends(chain, b, last);
      assert CleanStep(chain, b) && IsFresh(chain[b - 1], chain[b], id);
      ChainExtends(chain, 0, b - 1);
    }
  }

  predicate AddedAt(chain: seq<Registry>, id: string, k: int) {
    0 < k < |chain| && IsAdded(chain[k - 1], chain[k], id)
  }

  /** What the end-to-end diff adds is what some step added, at exactly one step. */
  lemma AddedOnceSomewhere(chain: seq<Registry>, id: string)
    requires CleanChain(chain) && chain != []
    ensures IsAdded(chain[0], chain[|chain| - 1], id) <==> exists k :: AddedAt(chain, id, k)
    ensures forall j, k :: AddedAt(chain, id, j) && AddedAt(chain, id, k) ==> j == k
  {
    var last := |chain| - 1;
    CleanChainExtends(chain);
    CleanEndToEnd(chain);
    if IsAdded(chain[0], chain[last], id) {
      var b := BirthExists(chain, id, last);
      assert CleanStep(chain, b) && IsFresh(chain[b - 1], chain[b], id) && AddedAt(chain, id, b);
    }
    if k :| AddedAt(chain, id, k) {
      ChainExtends(chain, 0, k - 1);
      ChainExtends(chain, k, last);
      assert IsFresh(chain[0], chain[last], id);
    }
    forall j, k | AddedAt(chain, id, j) && AddedAt(chain, id, k) ensures j == k
    {
      assert BornAt(chain, id, j) && BornAt(chain, id, k);
      BirthUnique(chain, id, j, k);
    }
  }

  /** What a declaration said when a step added it, it says at the end. */
  lemma DeclarationsStand(chain: seq<Registry>, id: string, j: nat, k: nat)
    requires CleanChain(chain) && j <= k < |chain| && id in chain[j]
    ensures id in chain[k] && Keeps(chain[j][id], chain[k][id])
  {
    CleanChainExtends(chain);
    ChainExtends(chain, j, k);
  }

  predicate BornAlike(chain: seq<Registry>, i: string, j: string, m: int, n: int) {
    BornAt(chain, i, m) && BornAt(chain, j, n) && ContentOf(chain[m][i]) == ContentOf(chain[n][j])
  }

  /** Declarations of the same content were made in the same release. */
  ghost predicate BornTogether(chain: seq<Registry>) {
    forall i, j, m, n :: BornAlike(chain, i, j, m, n) ==> m == n
  }

  lemma LaterBirthIsADuplicate(chain: seq<Registry>, i: string, j: string, m: nat, n: nat)
    requires ExtendingChain(chain) && BornAlike(chain, i, j, m, n) && m < n
    ensures !CleanStep(chain, n)
  {
    ChainExtends(chain, m, n - 1);
    assert ContentOf(chain[n - 1][i]) == ContentOf(chain[n][j]);
    assert IsFresh(chain[n - 1], chain[n], j) && Declares(chain[n - 1], ContentOf(chain[n][j]));
  }

  lemma DuplicateIsALaterBirth(chain: seq<Registry>, k: nat)
    requires ExtendingChain(chain) && 0 < k < |chain| && !CleanStep(chain, k)
    ensures !BornTogether(chain)
  {
    var j :| IsFresh(chain[k - 1], chain[k], j) && !IsAdded(chain[k - 1], chain[k], j);
    var i :| i in chain[k - 1] && ContentOf(chain[k - 1][i]) == ContentOf(chain[k][j]);
    var b := BirthExists(chain, i, k - 1);
    ChainExtends(chain, b, k - 1);
    assert BornAlike(chain, i, j, b, k);
  }

  /**
   Once no step removes or changes anything, the steps are all clean exactly when equal
   declarations were made in the same release.
   */
  lemma CleanIffBornTogether(chain: seq<Registry>)
    requires ExtendingChain(chain)
    ensures CleanChain(chain) <==> BornTogether(chain)
  {
    if CleanChain(chain) {
      forall i, j, m, n | BornAlike(chain, i, j, m, n) ensures m == n
      {
        if m < n { LaterBirthIsADuplicate(chain, i, j, m, n); }
        if n < m { LaterBirthIsADuplicate(chain, j, i, n, m); }
      }
    } else {
      var k :| 0 < k < |chain| && !CleanStep(chain, k);
      DuplicateIsALaterBirth(chain, k);
    }
  }

  /** The end-to-end diff alone does not see a declaration repeated between two steps. */
  lemma EndToEndMissesARepeat()
    ensures exists a: Registry, b: Registry, c: Registry :: Clean(a, b) && Clean(a, c) && Extends(b, c) && !Clean(b, c)
  {
    var e := Entry("dropped", true, None, None);
    var a: Registry, b: Registry, c: Registry := map[], map["first" := e], map["first" := e, "again" := e];
    assert IsFresh(b, c, "again") && ContentOf(b["first"]) == ContentOf(c["again"]);
    assert !IsAdded(b, c, "again");
    assert Clean(a, b) && Clean(a, c);
  }
}
