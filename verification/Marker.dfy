/**
 The release marker of scripts/gen-release-safety.ts: whether a rolling update is safe,
 and the oldest release that may upgrade directly. The verdict is judged against the
 evidence it needs; the floor is followed over a whole run of releases.
 */
module Marker {
  import opened Options
  import opened Versions
  import opened UpgradeOverrides
  import M = MigrationAnalysis

  datatype TriState = True | False | Unknown

  datatype Surface = Surface(checked: bool, breaking: TriState)

  datatype Lint = Lint(ran: bool, breaking: bool)

  datatype DeclaredBreak = DeclaredBreak(id: string, requiredStop: bool)

  /** Everything the verdict looks at. An absent flag is one the caller did not pass. */
  datatype Evidence = Evidence(
    present: Option<TriState>,
    operations: set<M.Operation>,
    migrationMetadata: Option<bool>,
    declarationMetadata: Option<bool>,
    declaredBreaks: seq<DeclaredBreak>,
    config: Option<Surface>,
    rest: Option<Surface>,
    mcp: Option<Surface>,
    lint: Option<Lint>,
    ai: Option<TriState>)

  datatype Strategy = RollingUpdate | Recreate

  datatype ReleaseMarker = ReleaseMarker(
    rollingUpdateSafe: TriState, strategy: Strategy, minPrevious: Option<Version>, requiredStops: seq<Version>)

  // ---- The verdict ----------------------------------------------------------------------------

  /** The operations that are safe while both releases run. */
  predicate IsSafeOperation(op: M.Operation) {
    match op
    case CreateUniqueIndexConcurrently => false
    case Unknown => false
    case _ => true
  }

  predicate CheckedWithoutBreak(s: Option<Surface>) { s.Some? && s.value.checked && s.value.breaking == False }

  predicate LintBreaks(e: Evidence) { e.lint.Some? && e.lint.value.ran && e.lint.value.breaking }

  predicate IsDeterministicallyRollingUpdateSafe(e: Evidence) {
    && e.present == Some(True)
    && e.migrationMetadata == Some(true)
    && e.declarationMetadata == Some(true)
    && CheckedWithoutBreak(e.rest)
    && CheckedWithoutBreak(e.mcp)
    && CheckedWithoutBreak(e.config)
    && e.declaredBreaks == []
    && !LintBreaks(e)
    && e.operations != {}
    && forall op :: op in e.operations ==> IsSafeOperation(op)
  }

  function Present(e: Evidence): TriState { if e.present.Some? then e.present.value else Unknown }

  /** An unchecked surface says nothing, whatever else it carries. */
  function IfChecked(s: Option<Surface>): Surface {
    if s.Some? && s.value.checked then s.value else Surface(false, Unknown)
  }

  predicate NotFalse(flag: Option<bool>) { flag != Some(false) }

  predicate MetadataComplete(e: Evidence) { NotFalse(e.migrationMetadata) && NotFalse(e.declarationMetadata) }

  predicate DeterministicBreak(e: Evidence) { IfChecked(e.config).breaking == True || e.declaredBreaks != [] }

  predicate ApiBreak(e: Evidence) { IfChecked(e.rest).breaking == True || IfChecked(e.mcp).breaking == True }

  predicate LinterFlagged(e: Evidence) { LintBreaks(e) && Present(e) == True }

  /** A review counts only when it is definite and had something to review. */
  predicate AiDecides(e: Evidence) {
    e.ai.Some? && e.ai.value != Unknown && (Present(e) == True || ApiBreak(e))
  }

  predicate FullyChecked(e: Evidence) {
    IfChecked(e.rest).checked && IfChecked(e.mcp).checked && IfChecked(e.config).checked && MetadataComplete(e)
  }

  /** Nothing in the deterministic evidence speaks against a rolling update. */
  predicate EvidenceOfSafety(e: Evidence) {
    || (Present(e) == False && FullyChecked(e) && !ApiBreak(e) && !DeterministicBreak(e))
    || IsDeterministicallyRollingUpdateSafe(e)
  }

  /** The verdict as an order of precedence: the first line that applies decides. */
  function Verdict(e: Evidence): TriState {
    if DeterministicBreak(e) then False
    else if !MetadataComplete(e) then Unknown
    else if AiDecides(e) then e.ai.value
    else if LinterFlagged(e) then False
    else if EvidenceOfSafety(e) then True
    else Unknown
  }

  /** The source's sequence of overrides, each step overwriting the one before. */
  method RollingUpdateVerdict(e: Evidence) returns (verdict: TriState)
    ensures verdict == Verdict(e)
  {
    verdict := Unknown;
    if (Present(e) == False && FullyChecked(e) && !ApiBreak(e) && !DeterministicBreak(e))
      || IsDeterministicallyRollingUpdateSafe(e) {
      verdict := True;
    }
    if LinterFlagged(e) || DeterministicBreak(e) { verdict := False; }
    if e.ai.Some? && e.ai.value != Unknown && (Present(e) == True || ApiBreak(e)) { verdict := e.ai.value; }
    if !MetadataComplete(e) { verdict := Unknown; }
    if DeterministicBreak(e) { verdict := False; }
  }

  /** No review can overrule a declared or configuration break, or vouch for unread metadata. */
  lemma AiCannotOverrule(e: Evidence)
    ensures e.declaredBreaks != [] || e.config == Some(Surface(true, True)) ==> forall ai :: Verdict(e.(ai := ai)) == False
    ensures e.declaredBreaks == [] && e.config != Some(Surface(true, True))
      && (e.migrationMetadata == Some(false) || e.declarationMetadata == Some(false))
      ==> forall ai :: Verdict(e.(ai := ai)) == Unknown
  {
    forall ai ensures DeterministicBreak(e.(ai := ai)) == DeterministicBreak(e)
      && MetadataComplete(e.(ai := ai)) == MetadataComplete(e) {}
  }

  /** The surface was checked and does not break. */
  ghost predicate Holds(s: Option<Surface>) { s == Some(Surface(true, False)) }

  /** The surface was checked and breaks. */
  ghost predicate Breaks(s: Option<Surface>) { s == Some(Surface(true, True)) }

  /** The surface was checked, whatever came of it. */
  ghost predicate IsChecked(s: Option<Surface>) { exists breaking :: s == Some(Surface(true, breaking)) }

  /** A release with migrations of which nothing at all is left open. */
  ghost predicate ProvenSafe(e: Evidence) {
    && e.present == Some(True)
    && e.migrationMetadata == Some(true) && e.declarationMetadata == Some(true)
    && Holds(e.rest) && Holds(e.mcp) && Holds(e.config)
    && e.declaredBreaks == [] && e.lint != Some(Lint(true, true))
    && e.operations != {}
    && e.operations <= {M.CreateIndexConcurrently, M.DropIndexConcurrentlyIfExists, M.SetStatementTimeout,
      M.ResetStatementTimeout, M.SetLockTimeout, M.ResetLockTimeout, M.SelectInvalidIndex}
  }

  /** A release without migrations whose three surfaces were all checked, and none found to break. */
  ghost predicate NothingToMigrate(e: Evidence) {
    && e.present == Some(False)
    && e.migrationMetadata != Some(false) && e.declarationMetadata != Some(false)
    && e.declaredBreaks == []
    && IsChecked(e.rest) && !Breaks(e.rest) && IsChecked(e.mcp) && !Breaks(e.mcp) && IsChecked(e.config) && !Breaks(e.config)
  }

  /** Something that no review can clear. */
  ghost predicate IsBroken(e: Evidence) { Breaks(e.config) || e.declaredBreaks != [] }

  /** Metadata that the caller knows to be incomplete. */
  ghost predicate IsUnread(e: Evidence) { e.migrationMetadata == Some(false) || e.declarationMetadata == Some(false) }

  /** A definite review of something to review. */
  ghost predicate IsReviewed(e: Evidence) {
    e.ai in {Some(True), Some(False)} && (e.present == Some(True) || Breaks(e.rest) || Breaks(e.mcp))
  }

  /** Without a review, the exact evidence behind a safe verdict. */
  lemma SafeExactly(e: Evidence)
    requires e.ai.None?
    ensures Verdict(e) == True <==> ProvenSafe(e) || NothingToMigrate(e)
  {
    SafeEvidence(e);
    CheckedAre(e);
  }

  lemma CheckedAre(e: Evidence)
    ensures forall s :: s in [e.rest, e.mcp, e.config] ==> (IsChecked(s) <==> s.Some? && s.value.checked)
  {
    forall s | s in [e.rest, e.mcp, e.config] && s.Some? && s.value.checked ensures IsChecked(s) {
      assert s == Some(Surface(true, s.value.breaking));
    }
  }

  lemma SafeEvidence(e: Evidence)
    ensures IsDeterministicallyRollingUpdateSafe(e) <==> ProvenSafe(e)
  {}

  /** With one, a safe verdict is the review's, or one that needs none. */
  lemma SafeWithReview(e: Evidence)
    ensures Verdict(e) == True <==>
      if IsReviewed(e) then e.ai == Some(True) && !IsBroken(e) && !IsUnread(e) else ProvenSafe(e) || NothingToMigrate(e)
  {
    SafeEvidence(e);
    CheckedAre(e);
  }

  /** The exact evidence behind an unsafe verdict. */
  lemma UnsafeExactly(e: Evidence)
    ensures Verdict(e) == False <==>
      || IsBroken(e)
      || (!IsUnread(e)
          && if IsReviewed(e) then e.ai == Some(False) else e.present == Some(True) && e.lint == Some(Lint(true, true)))
  {
    SafeEvidence(e);
  }

  /** `a` knows no more good of a surface than `b`: not checked, or checked with a worse result. */
  predicate WorseSurface(a: Option<Surface>, b: Option<Surface>) {
    || a.None? || !a.value.checked
    || (b.Some? && b.value.checked
        && (a.value.breaking == b.value.breaking || a.value.breaking == True || b.value.breaking == False))
  }

  /** `Some(false)` is worse than a flag not passed, and that is worse than `Some(true)`. */
  predicate WorseFlag(a: Option<bool>, b: Option<bool>) { a == b || a == Some(false) || b == Some(true) }

  predicate WorseOperations(a: set<M.Operation>, b: set<M.Operation>) {
    a == {} || (b != {} && b <= a)
  }

  /** `a` is the evidence `b` after losing checks or metadata, or gaining breaks. */
  predicate Worse(a: Evidence, b: Evidence) {
    && a.ai.None? && b.ai.None?
    && (a.present == b.present || a.present.None? || a.present == Some(Unknown))
    && WorseOperations(a.operations, b.operations)
    && WorseFlag(a.migrationMetadata, b.migrationMetadata)
    && WorseFlag(a.declarationMetadata, b.declarationMetadata)
    && |b.declaredBreaks| <= |a.declaredBreaks|
    && WorseSurface(a.config, b.config) && WorseSurface(a.rest, b.rest) && WorseSurface(a.mcp, b.mcp)
    && (b.lint == Some(Lint(true, true)) ==> a.lint == Some(Lint(true, true)))
  }

  /** Fail-safe: worse evidence never turns a verdict into a safe one. */
  lemma WorseEvidenceNeverSafer(a: Evidence, b: Evidence)
    requires Worse(a, b) && Verdict(a) == True
    ensures Verdict(b) == True
  {
    SafeExactly(a);
    SafeExactly(b);
    CheckedAre(a);
    CheckedAre(b);
  }

  // ---- The floor of one release ---------------------------------------------------------------

  /** The floor a release contributes itself: only after a review cleared a flagged change. */
  function OwnExpandContractFloor(e: Evidence, expandContractFloor: Option<Version>, previous: Option<Version>)
    : Option<Version>
  {
    if !(LinterFlagged(e) && e.ai == Some(True)) then None
    else if expandContractFloor.Some? then expandContractFloor
    else previous
  }

  /** A release has a floor of its own exactly when a review cleared a flagged change and there is a version to name. */
  lemma OwnFloorExactly(e: Evidence, expandContractFloor: Option<Version>, previous: Option<Version>, v: Version)
    ensures OwnExpandContractFloor(e, expandContractFloor, previous) == Some(v) <==>
      && e.present == Some(True) && e.lint == Some(Lint(true, true)) && e.ai == Some(True)
      && (expandContractFloor == Some(v) || (expandContractFloor.None? && previous == Some(v)))
  {}

  /** The advertised floor: what is declared, else the release's own, raised to what is carried. */
  function MinPrevious(declared: Option<Version>, own: Option<Version>, carried: Option<Version>)
    : (r: Option<Version>)
    ensures NoHigher(carried, r)
    ensures NoHigher(if declared.Some? then declared else own, r)
    ensures r == carried || r == declared || (declared.None? && r == own)
  {
    var base := if declared.Some? then declared else own;
    if carried.Some? && (base.None? || Before(base.value, carried.value)) then carried
    else
      assert base.Some? ==> carried.None? || AtMost(carried.value, base.value);
      base
  }

  datatype Release = Release(
    version: Version, previous: Option<Version>, evidence: Evidence, expandContractFloor: Option<Version>)

  function OwnFloor(r: Release): Option<Version> {
    OwnExpandContractFloor(r.evidence, r.expandContractFloor, r.previous)
  }

  /** The floor that release `r` advertises when it finds the overrides `file`. */
  function Advertised(file: Option<Overrides>, r: Release): Option<Version> {
    MinPrevious(ResolveUpgrade(file, r.version).minPrevious, OwnFloor(r), Top(Floors(file, r.version)))
  }

  predicate DeclaresStop(r: Release) {
    exists k :: 0 <= k < |r.evidence.declaredBreaks| && r.evidence.declaredBreaks[k].requiredStop
  }

  /** The stops that the marker of `r` lists: those the overrides mark, and itself when a declared break asks for it. */
  function ListedStops(file: Option<Overrides>, r: Release): set<Version> {
    (set v | v in RequiredStopsUpTo(file, r.version)) + (if DeclaresStop(r) then {r.version} else {})
  }

  method BuildMarker(r: Release, upgrade: Resolution, carried: Carried, requiredStops: seq<Version>)
    returns (m: ReleaseMarker)
    ensures m.rollingUpdateSafe == Verdict(r.evidence)
    ensures m.strategy == RollingUpdate <==> m.rollingUpdateSafe == True
    ensures m.minPrevious == MinPrevious(
      if upgrade.consulted then upgrade.minPrevious else None, OwnFloor(r),
      if carried.Carried? then Some(carried.floor) else None)
    ensures Ascending(m.requiredStops)
    ensures forall v :: v in m.requiredStops <==> 
      v in requiredStops || (v == r.version && exists k :: 0 <= k < |r.evidence.declaredBreaks| && r.evidence.declaredBreaks[k].requiredStop)
  {
    var verdict := RollingUpdateVerdict(r.evidence);
    var minPrevious := if upgrade.consulted then upgrade.minPrevious else None;
    var own := OwnFloor(r);
    if minPrevious.None? && own.Some? { minPrevious := own; }
    if carried.Carried? {
      if minPrevious.None? {
        minPrevious := Some(carried.floor);
      } else {
        var order := CompareVersions(carried.floor, minPrevious.value);
        if order > 0 { minPrevious := Some(carried.floor); }
        CompareIsTotalOrder(carried.floor, minPrevious.value, minPrevious.value);
      }
    }
    var stops := set v | v in requiredStops;
    if DeclaresStop(r) {
      stops := stops + {r.version};
    }
    SortedLists(stops);
    m := ReleaseMarker(verdict, if verdict == True then RollingUpdate else Recreate, minPrevious, Sorted(stops));
  }

  // ---- A run of releases ----------------------------------------------------------------------

  /** The overrides after a release whose marker is enabled. */
  function AfterRelease(file: Option<Overrides>, r: Release): Option<Overrides> {
    if OwnFloor(r).Some? then Recorded(file, r.version, OwnFloor(r).value) else file
  }

  /** The marker of a release, from the overrides it finds. */
  method MakeMarker(file: Option<Overrides>, entries: seq<Version>, r: Release) returns (m: ReleaseMarker)
    requires file.Some? ==> ListsEntries(entries, file.value)
    ensures m.minPrevious == Advertised(file, r)
    ensures m.rollingUpdateSafe == Verdict(r.evidence)
    ensures Ascending(m.requiredStops)
    ensures forall v :: v in m.requiredStops <==> v in ListedStops(file, r)
  {
    hide Verdict, OwnFloor, MinPrevious;
    var upgrade := ResolveUpgrade(file, r.version);
    var carried := CarriedUpgradeFloor(file, r.version, entries);
    m := BuildMarker(r, upgrade, carried, RequiredStopsUpTo(file, r.version));
  }

  /** One release: compute and publish its marker, then record its own floor. */
  method CutRelease(store: OverridesFile, entries: seq<Version>, r: Release) returns (m: ReleaseMarker)
    requires store.content.Some? ==> ListsEntries(entries, store.content.value)
    modifies store
    ensures m.minPrevious == Advertised(old(store.content), r)
    ensures m.rollingUpdateSafe == Verdict(r.evidence)
    ensures Ascending(m.requiredStops)
    ensures forall v :: v in m.requiredStops <==> v in ListedStops(old(store.content), r)
    ensures store.content == AfterRelease(old(store.content), r)
  {
    hide Advertised, Verdict, ListedStops, Ascending;
    m := MakeMarker(store.content, entries, r);
    var own := OwnFloor(r);
    if own.Some? {
      var _ := store.RecordDerivedFloor(r.version, own.value);
    }
  }

  /** The overrides that release `k` of the run finds. */
  function FileAt(file: Option<Overrides>, run: seq<Release>, k: nat): Option<Overrides>
    requires k <= |run|
  {
    if k == 0 then file else AfterRelease(FileAt(file, run, k - 1), run[k - 1])
  }

  function FloorAt(file: Option<Overrides>, run: seq<Release>, k: nat): Option<Version>
    requires k < |run|
  {
    Advertised(FileAt(file, run, k), run[k])
  }

  predicate InVersionOrder(run: seq<Release>) {
    forall i, j :: 0 <= i < j < |run| ==> Before(run[i].version, run[j].version)
  }

  lemma {:induction false} FileOnlyGrows(file: Option<Overrides>, run: seq<Release>, i: nat, j: nat)
    requires i <= j <= |run|
    ensures Keeps(FileAt(file, run, i), FileAt(file, run, j))
    decreases j
  {
    if i < j {
      FileOnlyGrows(file, run, i, j - 1);
      var before := FileAt(file, run, j - 1);
      if OwnFloor(run[j - 1]).Some? { RecordedKeeps(before, run[j - 1].version, OwnFloor(run[j - 1]).value); }
      KeepsTransitive(FileAt(file, run, i), before, FileAt(file, run, j));
    }
  }

  lemma DeclaredIsFloor(file: Option<Overrides>, version: Version)
    ensures var declared := ResolveUpgrade(file, version).minPrevious;
      declared.Some? ==> declared.value in Floors(file, version)
  {
    CompareIsTotalOrder(version, version, version);
  }

  /** A derived floor with nothing declared in its way is recorded and becomes a floor. */
  lemma OwnIsRecorded(file: Option<Overrides>, r: Release)
    requires OwnFloor(r).Some? && ResolveUpgrade(file, r.version).minPrevious.None?
    ensures OwnFloor(r).value in Floors(AfterRelease(file, r), r.version)
  {
    CompareIsTotalOrder(r.version, r.version, r.version);
    assert BlockFor(AfterRelease(file, r).value, r.version).minPrevious == Given(OwnFloor(r).value);
  }

  /** What a release advertises, everything after it inherits. */
  lemma AdvertisedIsInherited(file: Option<Overrides>, r: Release)
    ensures NoHigher(Advertised(file, r), Top(Floors(AfterRelease(file, r), r.version)))
  {
    var after := AfterRelease(file, r);
    if OwnFloor(r).Some? { RecordedKeeps(file, r.version, OwnFloor(r).value); }
    CompareIsTotalOrder(r.version, r.version, r.version);
    FloorsGrow(file, after, r.version, r.version);
    TopGrows(Floors(file, r.version), Floors(after, r.version));
    DeclaredIsFloor(file, r.version);
    var declared := ResolveUpgrade(file, r.version).minPrevious;
    if declared.Some? {
      TopBounds(Floors(after, r.version), declared.value);
    } else if OwnFloor(r).Some? {
      OwnIsRecorded(file, r);
      TopBounds(Floors(after, r.version), OwnFloor(r).value);
    }
  }

  lemma NoHigherTransitive(a: Option<Version>, b: Option<Version>, c: Option<Version>)
    requires NoHigher(a, b) && NoHigher(b, c)
    ensures NoHigher(a, c)
  {
    if a.Some? { CompareIsTotalOrder(a.value, b.value, c.value); }
  }

  /** Every floor bound to release `i` after it was cut is no higher than a later release advertises. */
  lemma FloorsStayBinding(file: Option<Overrides>, run: seq<Release>, i: nat, j: nat)
    requires i < j < |run| && InVersionOrder(run)
    ensures NoHigher(Top(Floors(FileAt(file, run, i + 1), run[i].version)), FloorAt(file, run, j))
  {
    var after, later := FileAt(file, run, i + 1), FileAt(file, run, j);
    FileOnlyGrows(file, run, i + 1, j);
    FloorsGrow(after, later, run[i].version, run[j].version);
    TopGrows(Floors(after, run[i].version), Floors(later, run[j].version));
    NoHigherTransitive(Top(Floors(after, run[i].version)), Top(Floors(later, run[j].version)), FloorAt(file, run, j));
  }

  /** Over a run of releases in version order the advertised floor never goes down. */
  lemma FloorsNeverDrop(file: Option<Overrides>, run: seq<Release>, i: nat, j: nat)
    requires i <= j < |run| && InVersionOrder(run)
    ensures NoHigher(FloorAt(file, run, i), FloorAt(file, run, j))
  {
    if i == j {
      var f := FloorAt(file, run, i);
      if f.Some? { CompareIsTotalOrder(f.value, f.value, f.value); }
    } else {
      AdvertisedIsInherited(FileAt(file, run, i), run[i]);
      FloorsStayBinding(file, run, i, j);
      NoHigherTransitive(FloorAt(file, run, i), Top(Floors(FileAt(file, run, i + 1), run[i].version)),
                         FloorAt(file, run, j));
    }
  }

  /** No floor recorded by an earlier release is above what a later release advertises. */
  lemma RecordedFloorsBind(file: Option<Overrides>, run: seq<Release>, i: nat, j: nat)
    requires i < j < |run| && InVersionOrder(run) && OwnFloor(run[i]).Some?
    ensures var block := BlockFor(FileAt(file, run, i + 1).value, run[i].version);
      block.minPrevious.Given? && NoHigher(Some(block.minPrevious.value), FloorAt(file, run, j))
  {
    var after := FileAt(file, run, i + 1);
    var floor := BlockFor(after.value, run[i].version).minPrevious.value;
    CompareIsTotalOrder(run[i].version, run[i].version, run[i].version);
    assert floor in Floors(after, run[i].version);
    TopBounds(Floors(after, run[i].version), floor);
    FloorsStayBinding(file, run, i, j);
    NoHigherTransitive(Some(floor), Top(Floors(after, run[i].version)), FloorAt(file, run, j));
  }

  // ---- One marker for a version skip ------------------------------------------------------------

  /** The target's marker lets `source` upgrade directly. */
  predicate Accepts(file: Option<Overrides>, run: seq<Release>, target: nat, source: Version)
    requires target < |run|
  {
    NoHigher(FloorAt(file, run, target), Some(source))
  }

  /** A source that the target's marker accepts is one that the marker of every release before it accepts. */
  lemma AcceptedBefore(file: Option<Overrides>, run: seq<Release>, i: nat, target: nat, source: Version)
    requires i <= target < |run| && InVersionOrder(run) && Accepts(file, run, target, source)
    ensures Accepts(file, run, i, source)
  {
    FloorsNeverDrop(file, run, i, target);
    NoHigherTransitive(FloorAt(file, run, i), FloorAt(file, run, target), Some(source));
  }

  predicate IsMarkedStop(file: Option<Overrides>, v: Version) {
    file.Some? && v in file.value.versions && file.value.versions[v].requiredStop == Some(true)
  }

  lemma RecordedStops(file: Option<Overrides>, version: Version, floor: Version, v: Version)
    ensures IsMarkedStop(Recorded(file, version, floor), v) <==> IsMarkedStop(file, v)
  {
    hide AutoNote;
  }

  /** Over a run, recording never changes which versions the overrides mark as stops. */
  lemma {:induction false} MarkedStopsStay(file: Option<Overrides>, run: seq<Release>, k: nat, v: Version)
    requires k <= |run|
    ensures IsMarkedStop(FileAt(file, run, k), v) <==> IsMarkedStop(file, v)
  {
    if k > 0 {
      MarkedStopsStay(file, run, k - 1, v);
      var own := OwnFloor(run[k - 1]);
      if own.Some? { RecordedStops(FileAt(file, run, k - 1), run[k - 1].version, own.value, v); }
    }
  }

  /** What the marker of release `k` lists, in terms of the overrides that the run started from. */
  lemma ListedInRun(file: Option<Overrides>, run: seq<Release>, k: nat, v: Version)
    requires k < |run|
    ensures v in ListedStops(FileAt(file, run, k), run[k]) <==>
      (IsMarkedStop(file, v) && AtMost(v, run[k].version)) || (v == run[k].version && DeclaresStop(run[k]))
  {
    MarkedStopsStay(file, run, k, v);
  }

  /** An accepted source is past every earlier stop that the overrides mark. */
  lemma PastMarkedStops(file: Option<Overrides>, run: seq<Release>, target: nat, source: Version, stop: Version)
    requires target < |run| && Accepts(file, run, target, source)
    requires IsMarkedStop(file, stop) && Before(stop, run[target].version)
    ensures AtMost(stop, source)
  {
    var found, version := FileAt(file, run, target), run[target].version;
    MarkedStopsStay(file, run, target, stop);
    CompareIsTotalOrder(stop, version, version);
    StopsAreFloors(found, stop, version);
    NoHigherTransitive(Some(stop), Top(Floors(found, version)), FloorAt(file, run, target));
    NoHigherTransitive(Some(stop), FloorAt(file, run, target), Some(source));
  }

  const OLDEST := Version(0, 0, 0)

  lemma OldestIsOldest(v: Version)
    ensures AtMost(OLDEST, v) && (AtMost(v, OLDEST) <==> v == OLDEST)
  {}

  /** Every source that the target's marker accepts is past `v`. */
  ghost predicate OnlyPast(file: Option<Overrides>, run: seq<Release>, target: nat, v: Version)
    requires target < |run|
  {
    forall source :: Accepts(file, run, target, source) ==> AtMost(v, source)
  }

  /** A marker only accepts sources past a version exactly when its floor is no lower; every source is past 0.0.0. */
  lemma OnlyPastExactly(file: Option<Overrides>, run: seq<Release>, target: nat, v: Version)
    requires target < |run|
    ensures OnlyPast(file, run, target, v) <==> v == OLDEST || NoHigher(Some(v), FloorAt(file, run, target))
  {
    hide FloorAt;
    var floor := FloorAt(file, run, target);
    OldestIsOldest(v);
    if OnlyPast(file, run, target, v) {
      if floor.Some? { CompareIsTotalOrder(floor.value, floor.value, floor.value); }
      assert Accepts(file, run, target, if floor.Some? then floor.value else OLDEST);
    } else {
      var source :| Accepts(file, run, target, source) && !AtMost(v, source);
      if NoHigher(Some(v), floor) { NoHigherTransitive(Some(v), floor, Some(source)); }
      if v == OLDEST { OldestIsOldest(source); }
    }
  }

  /** A stop on the way to the target: one that the marker of a release before it lists, or the target's marker does. */
  predicate IsOnTheWay(file: Option<Overrides>, run: seq<Release>, target: nat, v: Version)
    requires target < |run|
  {
    v != run[target].version && exists k :: 0 <= k <= target && v in ListedStops(FileAt(file, run, k), run[k])
  }

  /** A release of the run before the target that declares `v`, its own version, as a stop with a break. */
  ghost predicate IsDeclaredBefore(run: seq<Release>, target: nat, v: Version)
    requires target < |run|
  {
    exists k :: 0 <= k < target && DeclaresStop(run[k]) && v == run[k].version
  }

  lemma StopOfRelease(file: Option<Overrides>, run: seq<Release>, target: nat, v: Version, k: nat)
    requires k <= target < |run| && InVersionOrder(run) && v != run[target].version
    ensures v in ListedStops(FileAt(file, run, k), run[k]) ==>
      (IsMarkedStop(file, v) && Before(v, run[target].version)) || IsDeclaredBefore(run, target, v)
  {
    hide ListedStops, DeclaresStop, IsMarkedStop, FileAt;
    ListedInRun(file, run, k, v);
    CompareIsTotalOrder(v, run[k].version, run[target].version);
    CompareIsTotalOrder(v, run[target].version, v);
  }

  /** The stops on the way are those that the overrides mark and those that releases of the run declare with a break. */
  lemma StopsOnTheWay(file: Option<Overrides>, run: seq<Release>, target: nat, v: Version)
    requires target < |run| && InVersionOrder(run)
    ensures IsOnTheWay(file, run, target, v) <==>
      (IsMarkedStop(file, v) && Before(v, run[target].version)) || IsDeclaredBefore(run, target, v)
  {
    hide ListedStops, DeclaresStop, IsMarkedStop, FileAt, Compare;
    CompareIsTotalOrder(v, run[target].version, v);
    if IsOnTheWay(file, run, target, v) {
      var k :| 0 <= k <= target && v in ListedStops(FileAt(file, run, k), run[k]);
      StopOfRelease(file, run, target, v, k);
    }
    if IsMarkedStop(file, v) && Before(v, run[target].version) { ListedInRun(file, run, target, v); }
    if IsDeclaredBefore(run, target, v) {
      var k :| 0 <= k < target && DeclaresStop(run[k]) && v == run[k].version;
      CompareIsTotalOrder(v, run[target].version, v);
      ListedInRun(file, run, k, v);
    }
  }

  /**
   When one marker is enough for a version skip: every source that it accepts is past every
   stop on the way exactly when its floor is no lower than each stop that an earlier release
   of the run declared with a break. The stops that the overrides mark are always passed.
   */
  lemma OneMarkerSuffices(file: Option<Overrides>, run: seq<Release>, target: nat)
    requires target < |run| && InVersionOrder(run)
    ensures (forall v :: IsOnTheWay(file, run, target, v) ==> OnlyPast(file, run, target, v)) <==>
      forall k :: 0 <= k < target && DeclaresStop(run[k]) ==>
        run[k].version == OLDEST || NoHigher(Some(run[k].version), FloorAt(file, run, target))
  {
    hide FloorAt, IsOnTheWay, OnlyPast, DeclaresStop;
    forall v { StopsOnTheWay(file, run, target, v); }
    forall v ensures OnlyPast(file, run, target, v) <==> v == OLDEST || NoHigher(Some(v), FloorAt(file, run, target)) {
      OnlyPastExactly(file, run, target, v);
    }
    forall v | IsMarkedStop(file, v) && Before(v, run[target].version) ensures OnlyPast(file, run, target, v) {
      MarkedIsPassed(file, run, target, v);
    }
    if forall v :: IsOnTheWay(file, run, target, v) ==> OnlyPast(file, run, target, v) {
      forall k | 0 <= k < target && DeclaresStop(run[k])
        ensures run[k].version == OLDEST || NoHigher(Some(run[k].version), FloorAt(file, run, target))
      {
        assert IsDeclaredBefore(run, target, run[k].version);
        assert IsOnTheWay(file, run, target, run[k].version);
      }
    }
  }

  lemma MarkedIsPassed(file: Option<Overrides>, run: seq<Release>, target: nat, v: Version)
    requires target < |run| && IsMarkedStop(file, v) && Before(v, run[target].version)
    ensures OnlyPast(file, run, target, v)
  {
    forall source | Accepts(file, run, target, source) ensures AtMost(v, source) {
      PastMarkedStops(file, run, target, source, v);
    }
  }

  /** A later marker lists a stop that an earlier release declared with a break exactly when the overrides mark it too. */
  lemma DeclaredStopListedLater(file: Option<Overrides>, run: seq<Release>, k: nat, target: nat)
    requires k < target < |run| && InVersionOrder(run) && DeclaresStop(run[k])
    ensures run[k].version in ListedStops(FileAt(file, run, k), run[k])
    ensures run[k].version in ListedStops(FileAt(file, run, target), run[target]) <==> IsMarkedStop(file, run[k].version)
  {
    ListedInRun(file, run, k, run[k].version);
    ListedInRun(file, run, target, run[k].version);
    CompareIsTotalOrder(run[k].version, run[target].version, run[k].version);
  }

  /** Nothing checked, nothing found. */
  const NO_EVIDENCE := Evidence(None, {}, None, None, [], None, None, None, None, None)

  /**
   0.5.0 declares a break that asks for a stop and lists itself; the marker of 0.6.0 neither
   lists it nor keeps 0.4.0 from skipping it.
   */
  lemma DeclaredStopIsLost() returns (run: seq<Release>)
    ensures InVersionOrder(run) && |run| == 2 && run[0].version == Version(0, 5, 0) && run[1].version == Version(0, 6, 0)
    ensures Version(0, 5, 0) in ListedStops(FileAt(None, run, 0), run[0])
    ensures Version(0, 5, 0) !in ListedStops(FileAt(None, run, 1), run[1])
    ensures Accepts(None, run, 1, Version(0, 4, 0)) && !AtMost(Version(0, 5, 0), Version(0, 4, 0))
  {
    var declares := NO_EVIDENCE.(declaredBreaks := [DeclaredBreak("drop", true)]);
    run := [Release(Version(0, 5, 0), None, declares, None), Release(Version(0, 6, 0), None, NO_EVIDENCE, None)];
    assert run[0].evidence.declaredBreaks[0].requiredStop;
    assert FileAt(None, run, 0) == None;
    assert FileAt(None, run, 1) == None;
    DeclaredStopListedLater(None, run, 0, 1);
  }

  // ---- Persisted against advertised -------------------------------------------------------------

  /** What the overrides hold for `r` once it has been cut. */
  function Persisted(file: Option<Overrides>, r: Release): Option<Version> {
    var after := AfterRelease(file, r);
    if after.Some? && BlockFor(after.value, r.version).minPrevious.Given?
    then Some(BlockFor(after.value, r.version).minPrevious.value)
    else None
  }

  /** The floor the overrides already hold for `r`; a release never overwrites it. */
  function HeldFloor(file: Option<Overrides>, r: Release): Option<Version> {
    if file.Some? && BlockFor(file.value, r.version).minPrevious.Given?
    then Some(BlockFor(file.value, r.version).minPrevious.value)
    else None
  }

  lemma PersistedFloor(file: Option<Overrides>, r: Release)
    requires OwnFloor(r).Some?
    ensures Persisted(file, r) == if HeldFloor(file, r).Some? then HeldFloor(file, r) else OwnFloor(r)
  {}

  /** What is declared for a release is among the floors that bind it. */
  lemma DeclaredIsBelowTop(file: Option<Overrides>, r: Release)
    ensures NoHigher(ResolveUpgrade(file, r.version).minPrevious, Top(Floors(file, r.version)))
    ensures HeldFloor(file, r).Some? ==> HeldFloor(file, r) == ResolveUpgrade(file, r.version).minPrevious
  {
    DeclaredIsFloor(file, r.version);
    var declared := ResolveUpgrade(file, r.version).minPrevious;
    if declared.Some? { TopBounds(Floors(file, r.version), declared.value); }
  }

  lemma NoHigherBothWays(a: Option<Version>, b: Option<Version>)
    ensures NoHigher(a, a)
    ensures NoHigher(a, b) && NoHigher(b, a) ==> a == b
  {
    if a.Some? {
      CompareIsTotalOrder(a.value, a.value, a.value);
      if b.Some? { CompareIsTotalOrder(a.value, b.value, a.value); }
    }
  }

  /** A release advertises the floors that bind it, or its own when nothing is declared and it is higher. */
  lemma AdvertisedFloor(file: Option<Overrides>, r: Release)
    ensures var top := Top(Floors(file, r.version));
      Advertised(file, r) ==
        if ResolveUpgrade(file, r.version).minPrevious.None? && !NoHigher(OwnFloor(r), top) then OwnFloor(r) else top
  {
    hide Floors, ResolveUpgrade, Top, OwnFloor;
    DeclaredIsBelowTop(file, r);
    var declared, own, top := ResolveUpgrade(file, r.version).minPrevious, OwnFloor(r), Top(Floors(file, r.version));
    MinPreviousOfFloors(declared, own, top);
  }

  lemma MinPreviousOfFloors(declared: Option<Version>, own: Option<Version>, top: Option<Version>)
    requires NoHigher(declared, top)
    ensures MinPrevious(declared, own, top) == if declared.None? && !NoHigher(own, top) then own else top
  {
    var base := if declared.Some? then declared else own;
    NoHigherBothWays(base, top);
    if base.Some? && top.Some? { CompareIsTotalOrder(base.value, top.value, base.value); }
  }

  /**
   When the persisted floor of a release is the one its marker advertises: a floor that was
   held already must be the highest that binds the release; otherwise its own floor must be
   that, or at least as high when nothing is declared for the release.
   */
  lemma PersistedIsAdvertisedExactly(file: Option<Overrides>, r: Release)
    requires OwnFloor(r).Some?
    ensures var top := Top(Floors(file, r.version));
      Persisted(file, r) == Advertised(file, r) <==>
        if HeldFloor(file, r).Some? then HeldFloor(file, r) == top
        else if ResolveUpgrade(file, r.version).minPrevious.None? then NoHigher(top, OwnFloor(r))
        else OwnFloor(r) == top
  {
    hide Floors, ResolveUpgrade, Top, OwnFloor, Persisted, Advertised, HeldFloor;
    PersistedFloor(file, r);
    AdvertisedFloor(file, r);
    DeclaredIsBelowTop(file, r);
    NoHigherBothWays(OwnFloor(r), Top(Floors(file, r.version)));
    NoHigherBothWays(Top(Floors(file, r.version)), OwnFloor(r));
    NoHigherTotal(OwnFloor(r), Top(Floors(file, r.version)));
  }

  lemma NoHigherTotal(a: Option<Version>, b: Option<Version>)
    ensures NoHigher(a, b) || NoHigher(b, a)
  {
    if a.Some? && b.Some? { CompareIsTotalOrder(a.value, b.value, a.value); }
  }

  /**
   When a release's own marker honours the floor it persists, so that no older source is let
   in: nothing was declared for it, it held a floor already, or its own is no higher than what binds it.
   */
  lemma PersistedIsHonouredExactly(file: Option<Overrides>, r: Release)
    requires OwnFloor(r).Some?
    ensures NoHigher(Persisted(file, r), Advertised(file, r)) <==>
      || ResolveUpgrade(file, r.version).minPrevious.None?
      || HeldFloor(file, r).Some?
      || NoHigher(OwnFloor(r), Top(Floors(file, r.version)))
  {
    hide Floors, ResolveUpgrade, Top, OwnFloor, Persisted, Advertised, HeldFloor;
    PersistedFloor(file, r);
    AdvertisedFloor(file, r);
    DeclaredIsBelowTop(file, r);
    NoHigherBothWays(OwnFloor(r), OwnFloor(r));
  }

  /** A version whose own floor is `floor` because a review cleared it. */
  function Cleared(version: Version, floor: Version): Release {
    var e := Evidence(Some(True), {}, None, None, [], None, None, None, Some(Lint(true, true)), Some(True));
    Release(version, Some(floor), e, Some(floor))
  }

  /** Nothing is declared for 0.6.0, and it records 0.3.0 while it advertises the 0.4.0 it inherits from 0.5.0. */
  lemma PersistedCanFallBelowAdvertised() returns (file: Option<Overrides>, r: Release)
    ensures ResolveUpgrade(file, r.version).minPrevious.None?
    ensures OwnFloor(r) == Persisted(file, r) == Some(Version(0, 3, 0))
    ensures Advertised(file, r) == Some(Version(0, 4, 0))
  {
    var carried := Version(0, 4, 0);
    file := Some(Overrides(None, map[Version(0, 5, 0) := Block(Given(carried), None, Absent)]));
    r := Cleared(Version(0, 6, 0), Version(0, 3, 0));
    assert Version(0, 5, 0) in file.value.versions;
    assert Floors(file, r.version) == {carried};
    LatestIsLatest({carried}, carried);
    PersistedFloor(file, r);
    AdvertisedFloor(file, r);
  }

  /** A default below the derived floor: the marker says 0.1.0 while the file records 0.5.0. */
  lemma PersistedCanExceedAdvertised() returns (file: Option<Overrides>, r: Release)
    ensures OwnFloor(r) == Persisted(file, r) == Some(Version(0, 5, 0))
    ensures Advertised(file, r) == Some(Version(0, 1, 0))
  {
    var low := Version(0, 1, 0);
    file := Some(Overrides(Some(Block(Given(low), None, Absent)), map[]));
    r := Cleared(Version(0, 6, 0), Version(0, 5, 0));
    assert Floors(file, r.version) == {low};
    LatestIsLatest({low}, low);
    PersistedFloor(file, r);
    AdvertisedFloor(file, r);
  }
}
