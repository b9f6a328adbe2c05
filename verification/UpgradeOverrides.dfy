/**
 The committed upgrade overrides of scripts/upgrade-overrides.ts: what one release
 declares, what every later release inherits from it, and how a release records the
 floor it derived for itself.
 */
module UpgradeOverrides {
  import opened Options
  import opened Sequences
  import opened Versions
  import Decimal

  /** A JSON field: missing, `null`, or a value. Only a missing one lets a default through. */
  datatype Field<+T> = Absent | Null | Given(value: T)

  datatype Block = Block(minPrevious: Field<Version>, requiredStop: Option<bool>, note: Field<string>)

  datatype Overrides = Overrides(fallback: Option<Block>, versions: map<Version, Block>)

  datatype Resolution = Resolution(
    minPrevious: Option<Version>, requiredStop: bool, note: Option<string>, consulted: bool)

  const EMPTY_BLOCK := Block(Absent, None, Absent)
  const EMPTY_FILE := Overrides(None, map[])

  function Layer<T>(below: Option<T>, above: Field<T>): Option<T> {
    match above
    case Absent => below
    case Null => None
    case Given(v) => Some(v)
  }

  function BlockFor(o: Overrides, version: Version): Block {
    if version in o.versions then o.versions[version] else EMPTY_BLOCK
  }

  /** This release's own block: its entry over the file's default over nothing. */
  function ResolveUpgrade(file: Option<Overrides>, version: Version): Resolution {
    if file.None? then Resolution(None, false, None, false)
    else
      var base := if file.value.fallback.Some? then file.value.fallback.value else EMPTY_BLOCK;
      var own := BlockFor(file.value, version);
      Resolution(
        Layer(Layer(None, base.minPrevious), own.minPrevious),
        if own.requiredStop.Some? then own.requiredStop.value
        else if base.requiredStop.Some? then base.requiredStop.value else false,
        Layer(Layer(None, base.note), own.note),
        true)
  }

  /** The release's own entry decides about a field it mentions, even with `null`, and the default about the others. */
  lemma ResolvedExactly(o: Overrides, version: Version, f: Version)
    ensures ResolveUpgrade(Some(o), version).minPrevious == Some(f) <==>
      if version in o.versions && o.versions[version].minPrevious != Absent
      then o.versions[version].minPrevious == Given(f)
      else o.fallback.Some? && o.fallback.value.minPrevious == Given(f)
    ensures ResolveUpgrade(Some(o), version).requiredStop <==>
      if version in o.versions && o.versions[version].requiredStop != None
      then o.versions[version].requiredStop == Some(true)
      else o.fallback.Some? && o.fallback.value.requiredStop == Some(true)
    ensures ResolveUpgrade(Some(o), version).consulted && ResolveUpgrade(None, version) == Resolution(None, false, None, false)
  {}

  // ---- Floors carried forward --------------------------------------------------------------

  datatype Kind = MinPrevious | RequiredStop | Default

  datatype Carried = NoFloor | Carried(floor: Version, source: Option<Version>, kind: Kind)

  /** The file holds a declaration that puts this floor under `version`. */
  predicate Imposes(o: Overrides, version: Version, c: Carried) {
    && c.Carried?
    && match c.kind
       case Default =>
         c.source.None? && o.fallback.Some? && o.fallback.value.minPrevious == Given(c.floor)
       case MinPrevious =>
         && c.source.Some? && c.source.value in o.versions && AtMost(c.source.value, version)
         && o.versions[c.source.value].minPrevious == Given(c.floor)
       case RequiredStop =>
         && c.source.Some? && c.source.value in o.versions && Before(c.source.value, version)
         && o.versions[c.source.value].requiredStop == Some(true) && c.floor == c.source.value
  }

  /** Every floor the file puts under `version`. */
  function Floors(file: Option<Overrides>, version: Version): set<Version> {
    if file.None? then {}
    else
      var o := file.value;
      (if o.fallback.Some? && o.fallback.value.minPrevious.Given? then {o.fallback.value.minPrevious.value} else {})
      + (set v | v in o.versions && AtMost(v, version) && o.versions[v].minPrevious.Given?
         :: o.versions[v].minPrevious.value)
      + (set v | v in o.versions && Before(v, version) && o.versions[v].requiredStop == Some(true))
  }

  /** The most restrictive of some floors. */
  function Top(floors: set<Version>): Option<Version> {
    if floors == {} then None else Some(Latest(floors))
  }

  /** A missing floor is below every floor. */
  predicate NoHigher(a: Option<Version>, b: Option<Version>) {
    a.None? || (b.Some? && AtMost(a.value, b.value))
  }

  lemma ImposedAreFloors(o: Overrides, version: Version, f: Version)
    ensures f in Floors(Some(o), version) <==> exists c :: Imposes(o, version, c) && c.floor == f
  {
    if f in Floors(Some(o), version) {
      if o.fallback.Some? && o.fallback.value.minPrevious == Given(f) {
        assert Imposes(o, version, Carried(f, None, Default));
      } else if v :| v in o.versions && AtMost(v, version) && o.versions[v].minPrevious == Given(f) {
        assert Imposes(o, version, Carried(f, Some(v), MinPrevious));
      } else {
        assert Imposes(o, version, Carried(f, Some(f), RequiredStop));
      }
    }
  }

  predicate Better(best: Carried, c: Carried) {
    best.NoFloor? || (c.Carried? && Before(best.floor, c.floor))
  }

  method Consider(best: Carried, candidate: Carried) returns (r: Carried)
    ensures r == if candidate.Carried? && Better(best, candidate) then candidate else best
  {
    if candidate.NoFloor? { return best; }
    if best.NoFloor? { return candidate; }
    var order := CompareVersions(candidate.floor, best.floor);
    return if order > 0 then candidate else best;
  }

  /** The entries of the file in the order in which they stand. */
  ghost predicate ListsEntries(entries: seq<Version>, o: Overrides) {
    NoRepeats(entries) && forall v :: v in entries <==> v in o.versions
  }

  /** Where a declaration stands in the file: the default first, and in an entry its floor before its stop. */
  ghost predicate StandsAt(entries: seq<Version>, c: Carried, place: int) {
    && c.Carried?
    && match c.kind
       case Default => place == 0
       case MinPrevious => exists k :: 0 <= k < |entries| && c.source == Some(entries[k]) && place == 2 * k + 1
       case RequiredStop => exists k :: 0 <= k < |entries| && c.source == Some(entries[k]) && place == 2 * k + 2
  }

  /** `best` has the highest floor imposed by a declaration before `limit`, and is the first that has it. */
  ghost predicate IsBest(o: Overrides, version: Version, entries: seq<Version>, limit: int, best: Carried) {
    && (best.Carried? ==> Imposes(o, version, best) && exists p :: p < limit && StandsAt(entries, best, p))
    && forall c, q :: Imposes(o, version, c) && StandsAt(entries, c, q) && q < limit ==> Beats(entries, best, c, q)
  }

  /** `best` is higher than `c`, or as high and no later in the file. */
  ghost predicate Beats(entries: seq<Version>, best: Carried, c: Carried, q: int) {
    best.Carried? && c.Carried? && AtMost(c.floor, best.floor)
    && (c.floor == best.floor ==> exists p :: p <= q && StandsAt(entries, best, p))
  }

  function MinPreviousOf(v: Version, block: Block): Carried {
    if block.minPrevious.Given? then Carried(block.minPrevious.value, Some(v), MinPrevious) else NoFloor
  }

  function DefaultOf(o: Overrides): Carried {
    if o.fallback.Some? && o.fallback.value.minPrevious.Given?
    then Carried(o.fallback.value.minPrevious.value, None, Default) else NoFloor
  }

  /** The declaration that may stand at a place, if it is there and binds the version. */
  ghost predicate IsAt(o: Overrides, version: Version, entries: seq<Version>, place: int, candidate: Carried) {
    && (candidate.Carried? ==> Imposes(o, version, candidate) && StandsAt(entries, candidate, place))
    && forall c :: Imposes(o, version, c) && StandsAt(entries, c, place) ==> candidate == c
  }

  lemma BestOfOneMore(o: Overrides, version: Version, entries: seq<Version>, place: int, best: Carried, candidate: Carried)
    requires IsBest(o, version, entries, place, best) && IsAt(o, version, entries, place, candidate)
    ensures IsBest(o, version, entries, place + 1, if candidate.Carried? && Better(best, candidate) then candidate else best)
  {
    hide StandsAt;
    var r := if candidate.Carried? && Better(best, candidate) then candidate else best;
    forall c, q | Imposes(o, version, c) && StandsAt(entries, c, q) && q < place + 1 ensures Beats(entries, r, c, q) {
      if q == place {
        assert c == candidate && c.Carried?;
        CompareIsTotalOrder(c.floor, r.floor, c.floor);
      } else {
        assert Beats(entries, best, c, q);
        CompareIsTotalOrder(c.floor, best.floor, r.floor);
        CompareIsTotalOrder(best.floor, c.floor, r.floor);
      }
    }
  }

  lemma FloorIsAt(o: Overrides, version: Version, entries: seq<Version>, k: nat, candidate: Carried)
    requires ListsEntries(entries, o) && k < |entries|
    requires candidate == if AtMost(entries[k], version) then MinPreviousOf(entries[k], o.versions[entries[k]]) else NoFloor
    ensures IsAt(o, version, entries, 2 * k + 1, candidate)
  {}

  lemma StopIsAt(o: Overrides, version: Version, entries: seq<Version>, k: nat, candidate: Carried)
    requires ListsEntries(entries, o) && k < |entries|
    requires candidate == if Before(entries[k], version) && o.versions[entries[k]].requiredStop == Some(true)
                          then Carried(entries[k], Some(entries[k]), RequiredStop) else NoFloor
    ensures IsAt(o, version, entries, 2 * k + 2, candidate)
  {}

  lemma DefaultIsAt(o: Overrides, version: Version, entries: seq<Version>)
    ensures IsBest(o, version, entries, 1, DefaultOf(o))
  {
    var best := DefaultOf(o);
    assert best.Carried? ==> StandsAt(entries, best, 0);
    forall c, q | Imposes(o, version, c) && StandsAt(entries, c, q) && q < 1 ensures Beats(entries, best, c, q) {
      CompareIsTotalOrder(best.floor, best.floor, best.floor);
    }
  }

  method ConsiderEntry(o: Overrides, version: Version, entries: seq<Version>, k: nat, best: Carried) returns (r: Carried)
    requires ListsEntries(entries, o) && k < |entries| && IsBest(o, version, entries, 2 * k + 1, best)
    ensures IsBest(o, version, entries, 2 * k + 3, r)
  {
    hide IsBest, IsAt, Imposes;
    r := best;
    var v := entries[k];
    var block := o.versions[v];
    var order := CompareVersions(v, version);
    ghost var floor := if order <= 0 then MinPreviousOf(v, block) else NoFloor;
    FloorIsAt(o, version, entries, k, floor);
    BestOfOneMore(o, version, entries, 2 * k + 1, r, floor);
    if order <= 0 {
      r := Consider(r, MinPreviousOf(v, block));
    }
    ghost var stop := if order < 0 && block.requiredStop == Some(true) then Carried(v, Some(v), RequiredStop) else NoFloor;
    StopIsAt(o, version, entries, k, stop);
    BestOfOneMore(o, version, entries, 2 * k + 2, r, stop);
    if order < 0 && block.requiredStop == Some(true) {
      r := Consider(r, Carried(v, Some(v), RequiredStop));
    }
  }

  /** The first declaration in the file, in the order of its entries, that imposes the highest floor. */
  ghost predicate IsFirstTop(file: Option<Overrides>, version: Version, entries: seq<Version>, best: Carried) {
    if file.None? then best.NoFloor?
    else
      && (best.NoFloor? <==> Floors(file, version) == {})
      && (best.Carried? ==>
            && Top(Floors(file, version)) == Some(best.floor) && Imposes(file.value, version, best)
            && forall c, q :: Imposes(file.value, version, c) && c.floor == best.floor && StandsAt(entries, c, q) ==>
                exists p :: p <= q && StandsAt(entries, best, p))
  }

  /**
   The forward-carried floor: the highest that any release up to `version` imposes, with
   the declaration that set it, which is the first of those that do.
   */
  method CarriedUpgradeFloor(file: Option<Overrides>, version: Version, entries: seq<Version>) returns (best: Carried)
    requires file.Some? ==> ListsEntries(entries, file.value)
    ensures IsFirstTop(file, version, entries, best)
  {
    if file.None? { return NoFloor; }
    var o := file.value;
    best := DefaultOf(o);
    DefaultIsAt(o, version, entries);
    for k := 0 to |entries|
      invariant IsBest(o, version, entries, 2 * k + 1, best)
    {
      best := ConsiderEntry(o, version, entries, k, best);
    }
    BestIsTop(o, version, entries, best);
  }

  /** Every declaration stands somewhere. */
  lemma EveryoneStands(o: Overrides, version: Version, entries: seq<Version>, c: Carried) returns (q: int)
    requires ListsEntries(entries, o) && Imposes(o, version, c)
    ensures StandsAt(entries, c, q) && q < 2 * |entries| + 1
  {
    if c.kind == Default {
      q := 0;
    } else {
      var k :| 0 <= k < |entries| && entries[k] == c.source.value;
      q := if c.kind == MinPrevious then 2 * k + 1 else 2 * k + 2;
    }
  }

  lemma BestIsTop(o: Overrides, version: Version, entries: seq<Version>, best: Carried)
    requires ListsEntries(entries, o) && IsBest(o, version, entries, 2 * |entries| + 1, best)
    ensures IsFirstTop(Some(o), version, entries, best)
  {
    hide StandsAt, Floors, IsBest, ListsEntries;
    var floors := Floors(Some(o), version);
    forall f | f in floors ensures best.Carried? && AtMost(f, best.floor) {
      ImposedAreFloors(o, version, f);
      var c :| Imposes(o, version, c) && c.floor == f;
      BestIsHighest(o, version, entries, best, c);
    }
    if best.Carried? {
      BestIsImposed(o, version, entries, best);
      ImposedAreFloors(o, version, best.floor);
      LatestIsLatest(floors, best.floor);
    }
    forall c, q | best.Carried? && Imposes(o, version, c) && c.floor == best.floor && StandsAt(entries, c, q)
      ensures exists p :: p <= q && StandsAt(entries, best, p)
    {
      FirstOfTheHighest(o, version, entries, best, c, q);
    }
  }

  lemma BestIsImposed(o: Overrides, version: Version, entries: seq<Version>, best: Carried)
    requires IsBest(o, version, entries, 2 * |entries| + 1, best) && best.Carried?
    ensures Imposes(o, version, best)
  {}

  lemma BestIsHighest(o: Overrides, version: Version, entries: seq<Version>, best: Carried, c: Carried)
    requires ListsEntries(entries, o) && IsBest(o, version, entries, 2 * |entries| + 1, best) && Imposes(o, version, c)
    ensures best.Carried? && AtMost(c.floor, best.floor)
  {
    var q := EveryoneStands(o, version, entries, c);
    assert Beats(entries, best, c, q);
  }

  lemma FirstOfTheHighest(o: Overrides, version: Version, entries: seq<Version>, best: Carried, c: Carried, q: int)
    requires IsBest(o, version, entries, 2 * |entries| + 1, best) && best.Carried?
    requires Imposes(o, version, c) && c.floor == best.floor && StandsAt(entries, c, q)
    ensures exists p :: p <= q && StandsAt(entries, best, p)
  {
    if q < 2 * |entries| + 1 { assert Beats(entries, best, c, q); }
  }

  lemma LatestIsLatest(floors: set<Version>, f: Version)
    requires f in floors && forall g :: g in floors ==> AtMost(g, f)
    ensures Latest(floors) == f
  {
    CompareIsTotalOrder(Latest(floors), f, f);
  }

  /** Every required stop at or before `version`, oldest first. */
  function RequiredStopsUpTo(file: Option<Overrides>, version: Version): (r: seq<Version>)
    ensures Ascending(r)
    ensures forall v :: v in r <==>
      file.Some? && v in file.value.versions && AtMost(v, version) && file.value.versions[v].requiredStop == Some(true)
  {
    if file.None? then []
    else
      var stops := set v | v in file.value.versions
                           && file.value.versions[v].requiredStop == Some(true) && AtMost(v, version);
      SortedLists(stops);
      Sorted(stops)
  }

  /** A source older than a required stop is below the floor of everything after that stop. */
  lemma StopsAreFloors(file: Option<Overrides>, stop: Version, version: Version)
    requires stop in RequiredStopsUpTo(file, version) && stop != version
    ensures NoHigher(Some(stop), Top(Floors(file, version)))
  {
    CompareIsTotalOrder(stop, version, version);
    assert stop in Floors(file, version);
    TopBounds(Floors(file, version), stop);
  }

  lemma TopBounds(floors: set<Version>, f: Version)
    requires f in floors
    ensures NoHigher(Some(f), Top(floors))
  {
    CompareIsTotalOrder(f, Latest(floors), f);
  }

  lemma TopGrows(a: set<Version>, b: set<Version>)
    requires a <= b
    ensures NoHigher(Top(a), Top(b))
  {
    if a != {} { TopBounds(b, Latest(a)); }
  }

  // ---- Recording a derived floor --------------------------------------------------------------

  function ShowVersion(v: Version): string {
    Decimal.Show(v.major) + "." + Decimal.Show(v.minor) + "." + Decimal.Show(v.patch)
  }

  function AutoNote(version: Version, floor: Version): string {
    "Auto-recorded at release " + ShowVersion(version)
    + ": a destructive migration here is safe to roll past only when upgrading from "
    + ShowVersion(floor) + " or later."
  }

  /** The file after a release recorded its floor, unless it already had one. */
  function Recorded(file: Option<Overrides>, version: Version, floor: Version): Option<Overrides> {
    var current := if file.Some? then file.value else EMPTY_FILE;
    var existing := BlockFor(current, version);
    if existing.minPrevious.Given? then file
    else
      var note := if existing.note.Given? then existing.note else Given(AutoNote(version, floor));
      Some(current.(versions := current.versions[version := existing.(minPrevious := Given(floor), note := note)]))
  }

  /** `g` is `f` with this floor in the release's own entry, where everything else is as it was. */
  ghost predicate Writes(f: Option<Overrides>, version: Version, floor: Version, g: Option<Overrides>) {
    && g.Some? && version in g.value.versions && g.value.versions[version].minPrevious == Given(floor)
    && g.value.versions[version].note.Given?
    && match f
       case None =>
         && g.value.fallback == None && g.value.versions.Keys == {version}
         && g.value.versions[version].requiredStop == None
       case Some(o) =>
         && g.value.fallback == o.fallback && g.value.versions.Keys == o.versions.Keys + {version}
         && (forall v :: v in o.versions && v != version ==> g.value.versions[v] == o.versions[v])
         && (version in o.versions && o.versions[version].note.Given? ==> g.value.versions[version].note == o.versions[version].note)
         && g.value.versions[version].requiredStop == if version in o.versions then o.versions[version].requiredStop else None
  }

  lemma RecordedExactly(file: Option<Overrides>, version: Version, floor: Version)
    ensures if file.Some? && version in file.value.versions && file.value.versions[version].minPrevious.Given?
      then Recorded(file, version, floor) == file
      else Writes(file, version, floor, Recorded(file, version, floor))
  {
    hide AutoNote;
  }

  /** The committed overrides file. */
  class OverridesFile {
    var content: Option<Overrides>

    constructor (content: Option<Overrides>)
      ensures this.content == content
    {
      this.content := content;
    }

    /** Write-if-absent; true exactly when it wrote. */
    method RecordDerivedFloor(version: Version, floor: Version) returns (wrote: bool)
      modifies this
      ensures wrote <==>
        !(old(content).Some? && version in old(content).value.versions && old(content).value.versions[version].minPrevious.Given?)
      ensures content == Recorded(old(content), version, floor)
      ensures if wrote then Writes(old(content), version, floor, content) else content == old(content)
    {
      hide Writes, AutoNote;
      RecordedExactly(content, version, floor);
      var current := if content.Some? then content.value else EMPTY_FILE;
      var existing := BlockFor(current, version);
      if existing.minPrevious.Given? { return false; }
      var note := if existing.note.Given? then existing.note else Given(AutoNote(version, floor));
      var updated := existing.(minPrevious := Given(floor), note := note);
      content := Some(current.(versions := current.versions[version := updated]));
      return true;
    }
  }

  /** `g` keeps every declaration of `f` that can become a floor. */
  predicate Keeps(f: Option<Overrides>, g: Option<Overrides>) {
    f.Some? ==>
      && g.Some? && f.value.fallback == g.value.fallback
      && forall v :: v in f.value.versions ==>
          && v in g.value.versions
          && (f.value.versions[v].minPrevious.Given? ==> g.value.versions[v].minPrevious == f.value.versions[v].minPrevious)
          && g.value.versions[v].requiredStop == f.value.versions[v].requiredStop
  }

  lemma RecordedKeeps(file: Option<Overrides>, version: Version, floor: Version)
    ensures Keeps(file, Recorded(file, version, floor))
  {}

  lemma KeepsTransitive(f: Option<Overrides>, g: Option<Overrides>, h: Option<Overrides>)
    requires Keeps(f, g) && Keeps(g, h)
    ensures Keeps(f, h)
  {}

  /** What binds a release binds every later release of a file that kept it. */
  lemma FloorsGrow(f: Option<Overrides>, g: Option<Overrides>, v: Version, w: Version)
    requires Keeps(f, g) && AtMost(v, w)
    ensures Floors(f, v) <= Floors(g, w)
  {
    if f.Some? {
      forall x | x in f.value.versions ensures (AtMost(x, v) ==> AtMost(x, w)) && (Before(x, v) ==> Before(x, w)) {
        CompareIsTotalOrder(x, v, w);
      }
      forall x | x in Floors(f, v) ensures x in Floors(g, w) {
        ImposedAreFloors(f.value, v, x);
        var c :| Imposes(f.value, v, c) && c.floor == x;
        assert Imposes(g.value, w, c);
        ImposedAreFloors(g.value, w, x);
      }
    }
  }
}
