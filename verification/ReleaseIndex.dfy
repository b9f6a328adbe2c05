/**
 The cumulative index of release-safety markers (scripts/release-safety-index.ts) and the
 resumable backfill that fills it (scripts/backfill-release-safety-index.ts).
 */
module ReleaseIndex {
  import opened Options
  import opened Sequences
  import opened Versions

  datatype TriState = Safe | Unsafe | Unknown

  /** What a marker says about a release, apart from the two versions it is made for. */
  datatype Facts = Facts(
    releaseDate: string, rollingUpdateSafe: TriState, requiredStops: seq<Version>, minPreviousVersion: Option<Version>)

  datatype Marker = Marker(version: Version, previousVersion: Option<Version>, facts: Facts)

  datatype Entry = Entry(
    version: Version, previousVersion: Option<Version>, facts: Facts, backfilled: bool, syntheticRequiredStop: bool)

  datatype Index = Index(floor: Option<Version>, entries: seq<Entry>)

  const EMPTY := Index(None, [])

  function IndexEntryFromMarker(marker: Marker, backfilled: bool): Entry {
    Entry(marker.version, marker.previousVersion, marker.facts, backfilled, false)
  }

  // ---- Tables of entries ------------------------------------------------------------------

  type Table = map<Version, Entry>

  predicate Keyed(t: Table) { forall v :: v in t ==> t[v].version == v }

  /** Sets the entries one after the other; a later one replaces an earlier one of its version. */
  function Put(t: Table, entries: seq<Entry>): Table {
    if entries == [] then t
    else
      var n := |entries| - 1;
      Put(t, entries[..n])[entries[n].version := entries[n]]
  }

  predicate Names(entries: seq<Entry>, v: Version) {
    exists k :: 0 <= k < |entries| && entries[k].version == v
  }

  function TableOf(index: Index): Table { Put(map[], index.entries) }

  /** The table's entries by ascending version. */
  function Listed(t: Table): seq<Entry> {
    SortedLists(t.Keys);
    Pick(t, Sorted(t.Keys))
  }

  function Pick(t: Table, versions: seq<Version>): seq<Entry>
    requires forall v :: v in versions ==> v in t
  {
    if versions == [] then [] else [t[versions[0]]] + Pick(t, versions[1..])
  }

  lemma {:induction false} PickAt(t: Table, versions: seq<Version>)
    requires forall v :: v in versions ==> v in t
    ensures |Pick(t, versions)| == |versions|
    ensures forall k :: 0 <= k < |versions| ==> Pick(t, versions)[k] == t[versions[k]]
  {
    if versions != [] {
      PickAt(t, versions[1..]);
      forall k | 0 <= k < |versions| ensures Pick(t, versions)[k] == t[versions[k]] {
        assert k > 0 ==> versions[1..][k - 1] == versions[k];
      }
    }
  }

  lemma NamesFront(entries: seq<Entry>, v: Version)
    requires entries != []
    ensures Names(entries, v) <==> Names(entries[..|entries| - 1], v) || entries[|entries| - 1].version == v
  {
    var n := |entries| - 1;
    assert forall k :: 0 <= k < n ==> entries[..n][k] == entries[k];
    if k :| 0 <= k < |entries| && entries[k].version == v && k < n { assert entries[..n][k].version == v; }
  }

  /** The entry that counts for a release: the last one of its version. */
  function LastNamed(entries: seq<Entry>, v: Version): Entry
    requires Names(entries, v)
  {
    var n := |entries| - 1;
    NamesFront(entries, v);
    if entries[n].version == v then entries[n] else LastNamed(entries[..n], v)
  }

  lemma {:induction false} PutAt(t: Table, entries: seq<Entry>, v: Version)
    ensures v in Put(t, entries) <==> v in t || Names(entries, v)
    ensures Names(entries, v) ==> Put(t, entries)[v] == LastNamed(entries, v)
    ensures !Names(entries, v) && v in t ==> Put(t, entries)[v] == t[v]
  {
    if entries != [] {
      NamesFront(entries, v);
      PutAt(t, entries[..|entries| - 1], v);
    }
  }

  lemma {:induction false} LastNamedAt(entries: seq<Entry>, k: nat)
    requires k < |entries| && forall j :: k < j < |entries| ==> entries[j].version != entries[k].version
    ensures Names(entries, entries[k].version) && LastNamed(entries, entries[k].version) == entries[k]
  {
    var n := |entries| - 1;
    if k < n {
      assert forall j :: 0 <= j < n ==> entries[..n][j] == entries[j];
      LastNamedAt(entries[..n], k);
      NamesFront(entries, entries[k].version);
    }
  }

  lemma {:induction false} PutKeyed(t: Table, entries: seq<Entry>)
    requires Keyed(t)
    ensures Keyed(Put(t, entries))
  {
    if entries != [] { PutKeyed(t, entries[..|entries| - 1]); }
  }

  lemma {:induction false} PutJoins(t: Table, xs: seq<Entry>, ys: seq<Entry>)
    ensures Put(t, xs + ys) == Put(Put(t, xs), ys)
  {
    if ys == [] {
      assert xs + [] == xs;
    } else {
      var n := |ys| - 1;
      PutJoins(t, xs, ys[..n]);
      assert (xs + ys)[..|xs + ys| - 1] == xs + ys[..n] && (xs + ys)[|xs + ys| - 1] == ys[n];
    }
  }

  predicate OnePerVersion(entries: seq<Entry>) {
    forall i, j :: 0 <= i < j < |entries| ==> Before(entries[i].version, entries[j].version)
  }

  lemma ListingAt(t: Table, v: Version)
    requires Keyed(t)
    ensures v in t <==> Names(Listed(t), v)
    ensures v in t ==> LastNamed(Listed(t), v) == t[v]
  {
    var versions, list := Sorted(t.Keys), Listed(t);
    SortedLists(t.Keys);
    PickAt(t, versions);
    assert forall k :: 0 <= k < |list| ==> versions[k] in t.Keys && list[k].version == versions[k];
    if v in t {
      var k :| 0 <= k < |versions| && versions[k] == v;
      assert forall j :: k < j < |versions| ==> Before(versions[k], versions[j]);
      LastNamedAt(list, k);
    }
  }

  /** A table and its listing hold the same. */
  lemma ListedTable(t: Table)
    requires Keyed(t)
    ensures OnePerVersion(Listed(t)) && Put(map[], Listed(t)) == t
  {
    hide Put, LastNamed, Names;
    forall v ensures v in Put(map[], Listed(t)) <==> v in t
      ensures v in t ==> Put(map[], Listed(t))[v] == t[v]
    {
      ListingAt(t, v);
      PutAt(map[], Listed(t), v);
    }
    var versions := Sorted(t.Keys);
    SortedLists(t.Keys);
    PickAt(t, versions);
    assert forall k :: 0 <= k < |versions| ==> versions[k] in t.Keys;
  }

  // ---- The backfill floor's required stop ----------------------------------------------------

  /** Each value where it first occurs. */
  function Unique(s: seq<Version>): seq<Version> {
    if s == [] then []
    else
      var n := |s| - 1;
      Unique(s[..n]) + (if s[n] in s[..n] then [] else [s[n]])
  }

  lemma {:induction false} UniqueHolds(s: seq<Version>, v: Version)
    ensures v in Unique(s) <==> v in s
  {
    if s != [] {
      var n := |s| - 1;
      UniqueHolds(s[..n], v);
      assert s == s[..n] + [s[n]];
    }
  }

  lemma {:induction false} UniqueStarts(s: seq<Version>)
    requires s != []
    ensures Unique(s) != [] && Unique(s)[0] == s[0]
  {
    var n := |s| - 1;
    if n > 0 { UniqueStarts(s[..n]); }
  }

  lemma {:induction false} UniqueNoRepeats(s: seq<Version>)
    ensures NoRepeats(Unique(s))
  {
    if s != [] {
      var n := |s| - 1;
      UniqueNoRepeats(s[..n]);
      UniqueHolds(s[..n], s[n]);
    }
  }

  lemma {:induction false} UniqueAgain(floor: Version, r: seq<Version>)
    requires NoRepeats(r) && r != [] && r[0] == floor
    ensures Unique([floor] + r) == r
  {
    var s := [floor] + r;
    var n := |r| - 1;
    assert s[..n + 1] == [floor] + r[..n] && s[n + 1] == r[n];
    if n == 0 {
      assert s[..1] == [floor] && [floor][..0] == [];
      assert Unique([floor]) == [floor];
      assert r == [floor];
    } else {
      UniqueAgain(floor, r[..n]);
      assert r[n] !in [floor] + r[..n];
      assert r == r[..n] + [r[n]];
    }
  }

  function Stamp(e: Entry, floor: Version): Entry {
    e.(facts := e.facts.(requiredStops := Unique([floor] + e.facts.requiredStops)), syntheticRequiredStop := true)
  }

  predicate Stamped(e: Entry, floor: Version) { Stamp(e, floor) == e }

  lemma StampOnce(e: Entry, floor: Version)
    ensures Stamped(Stamp(e, floor), floor)
  {
    var s := [floor] + e.facts.requiredStops;
    UniqueStarts(s);
    UniqueNoRepeats(s);
    UniqueAgain(floor, Unique(s));
  }

  /** A stamped entry requires a stop at the floor first, lists no stop twice and forgets none. */
  lemma StampAddsTheStop(e: Entry, floor: Version)
    ensures Stamp(e, floor).facts.requiredStops != [] && Stamp(e, floor).facts.requiredStops[0] == floor
    ensures NoRepeats(Stamp(e, floor).facts.requiredStops)
    ensures forall v :: v in Stamp(e, floor).facts.requiredStops <==> v == floor || v in e.facts.requiredStops
  {
    var s := [floor] + e.facts.requiredStops;
    UniqueStarts(s);
    UniqueNoRepeats(s);
    forall v { UniqueHolds(s, v); }
  }

  function StampAt(t: Table, floor: Option<Version>): Table {
    if floor.Some? && floor.value in t then t[floor.value := Stamp(t[floor.value], floor.value)] else t
  }

  // ---- Updating the index ----------------------------------------------------------------------

  function FloorOf(index: Index, floor: Option<Version>): Option<Version> {
    if floor.Some? then floor else index.floor
  }

  function Updated(index: Index, entries: seq<Entry>, floor: Option<Version>): Table {
    StampAt(Put(TableOf(index), entries), FloorOf(index, floor))
  }

  lemma UpdatedKeyed(index: Index, entries: seq<Entry>, floor: Option<Version>)
    ensures Keyed(TableOf(index)) && Keyed(Updated(index, entries, floor))
  {
    PutKeyed(map[], index.entries);
    PutKeyed(TableOf(index), entries);
  }

  function Update(index: Index, entries: seq<Entry>, floor: Option<Version>): Index {
    Index(FloorOf(index, floor), Listed(Updated(index, entries, floor)))
  }

  method UpdateReleaseSafetyIndex(index: Index, entries: seq<Entry>, floor: Option<Version>) returns (r: Index)
    ensures r == Update(index, entries, floor)
    ensures OnePerVersion(r.entries)
  {
    var backfillFloor := if floor.Some? then floor else index.floor;
    var byVersion: Table := map[];
    for k := 0 to |index.entries|
      invariant byVersion == Put(map[], index.entries[..k])
    {
      assert index.entries[..k + 1][..k] == index.entries[..k];
      byVersion := byVersion[index.entries[k].version := index.entries[k]];
    }
    assert index.entries[..|index.entries|] == index.entries;
    for k := 0 to |entries|
      invariant byVersion == Put(TableOf(index), entries[..k])
    {
      assert entries[..k + 1][..k] == entries[..k];
      byVersion := byVersion[entries[k].version := entries[k]];
    }
    assert entries[..|entries|] == entries;
    if backfillFloor.Some? && backfillFloor.value in byVersion {
      byVersion := byVersion[backfillFloor.value := Stamp(byVersion[backfillFloor.value], backfillFloor.value)];
    }
    UpdatedKeyed(index, entries, floor);
    ListedTable(byVersion);
    return Index(backfillFloor, Listed(byVersion));
  }

  lemma UpdateTable(index: Index, entries: seq<Entry>, floor: Option<Version>)
    ensures TableOf(Update(index, entries, floor)) == Updated(index, entries, floor)
    ensures OnePerVersion(Update(index, entries, floor).entries)
  {
    UpdatedKeyed(index, entries, floor);
    ListedTable(Updated(index, entries, floor));
  }

  /** Stamping before further entries are set changes nothing that stamping after them would not. */
  lemma StampThenPut(t: Table, entries: seq<Entry>, floor: Option<Version>)
    ensures StampAt(Put(StampAt(t, floor), entries), floor) == StampAt(Put(t, entries), floor)
  {
    var a, b := Put(StampAt(t, floor), entries), Put(t, entries);
    forall v ensures v in a <==> v in b
      ensures v in b && floor != Some(v) ==> a[v] == b[v]
      ensures v in b && floor == Some(v) ==> Stamp(a[v], v) == Stamp(b[v], v)
    {
      PutAt(StampAt(t, floor), entries, v);
      PutAt(t, entries, v);
      if v in t { StampOnce(t[v], v); }
    }
  }

  /** Two updates are one update with both lists of entries. */
  lemma UpdatesJoin(index: Index, xs: seq<Entry>, ys: seq<Entry>, floor: Option<Version>)
    ensures Update(Update(index, xs, floor), ys, floor) == Update(index, xs + ys, floor)
  {
    UpdateTable(index, xs, floor);
    StampThenPut(Put(TableOf(index), xs), ys, FloorOf(index, floor));
    PutJoins(TableOf(index), xs, ys);
  }

  lemma PutTwice(t: Table, xs: seq<Entry>)
    ensures Put(Put(t, xs), xs) == Put(t, xs)
  {
    forall v ensures v in Put(Put(t, xs), xs) <==> v in Put(t, xs)
      ensures v in Put(t, xs) ==> Put(Put(t, xs), xs)[v] == Put(t, xs)[v]
    {
      PutAt(t, xs, v);
      PutAt(Put(t, xs), xs, v);
    }
  }

  predicate NoneInBoth(xs: seq<Entry>, ys: seq<Entry>) {
    forall j, k :: 0 <= j < |xs| && 0 <= k < |ys| ==> xs[j].version != ys[k].version
  }

  lemma PutCommutes(t: Table, xs: seq<Entry>, ys: seq<Entry>)
    requires NoneInBoth(xs, ys)
    ensures Put(Put(t, xs), ys) == Put(Put(t, ys), xs)
  {
    var a, b := Put(Put(t, xs), ys), Put(Put(t, ys), xs);
    forall v ensures v in a <==> v in b
      ensures v in a ==> a[v] == b[v]
    {
      PutAt(t, xs, v);
      PutAt(t, ys, v);
      PutAt(Put(t, xs), ys, v);
      PutAt(Put(t, ys), xs, v);
    }
  }

  /** Repeating an update changes nothing, the synthetic required stop included. */
  lemma UpdateIdempotent(index: Index, entries: seq<Entry>, floor: Option<Version>)
    ensures Update(Update(index, entries, floor), entries, floor) == Update(index, entries, floor)
  {
    UpdatesJoin(index, entries, entries, floor);
    PutJoins(TableOf(index), entries, entries);
    PutTwice(TableOf(index), entries);
  }

  /** Updates for different releases may come in either order. */
  lemma UpdatesCommute(index: Index, xs: seq<Entry>, ys: seq<Entry>, floor: Option<Version>)
    requires NoneInBoth(xs, ys)
    ensures Update(Update(index, xs, floor), ys, floor) == Update(Update(index, ys, floor), xs, floor)
  {
    UpdatesJoin(index, xs, ys, floor);
    UpdatesJoin(index, ys, xs, floor);
    PutJoins(TableOf(index), xs, ys);
    PutJoins(TableOf(index), ys, xs);
    PutCommutes(TableOf(index), xs, ys);
  }

  // ---- What an updated index lists ---------------------------------------------------------------

  /** No later entry is of the same version. */
  ghost predicate IsLast(entries: seq<Entry>, k: nat) {
    k < |entries| && forall j :: k < j < |entries| ==> entries[j].version != entries[k].version
  }

  /** `a` stands at `k`, and `b` neither there nor before. */
  ghost predicate StandsFirst(s: seq<Version>, a: Version, b: Version, k: nat) { k < |s| && s[k] == a && b !in s[..k + 1] }

  ghost predicate IsAhead(s: seq<Version>, a: Version, b: Version) { exists k: nat :: StandsFirst(s, a, b, k) }

  /** The values of `s`, each once, in the order in which they first stand there. */
  ghost predicate ListsFirsts(s: seq<Version>, r: seq<Version>) {
    && NoRepeats(r) && (forall v :: v in r <==> v in s)
    && forall i, j :: 0 <= i < j < |r| ==> IsAhead(s, r[i], r[j])
  }

  /** `e` is `s` with the floor as its first required stop, and marked for it. */
  ghost predicate IsStampOf(e: Entry, s: Entry, floor: Version) {
    && e.version == s.version && e.previousVersion == s.previousVersion && e.backfilled == s.backfilled && e.syntheticRequiredStop
    && e.facts.releaseDate == s.facts.releaseDate && e.facts.rollingUpdateSafe == s.facts.rollingUpdateSafe
    && e.facts.minPreviousVersion == s.facts.minPreviousVersion
    && ListsFirsts([floor] + s.facts.requiredStops, e.facts.requiredStops)
  }

  ghost predicate IsEntryFor(e: Entry, s: Entry, floor: Option<Version>) {
    if floor == Some(s.version) then IsStampOf(e, s, s.version) else e == s
  }

  lemma {:induction false} UniqueInOrder(s: seq<Version>, i: nat, j: nat)
    requires i < j < |Unique(s)|
    ensures IsAhead(s, Unique(s)[i], Unique(s)[j])
  {
    var n := |s| - 1;
    var front := Unique(s[..n]);
    var a, b := Unique(s)[i], Unique(s)[j];
    if j < |front| {
      UniqueInOrder(s[..n], i, j);
      var k: nat :| StandsFirst(s[..n], a, b, k);
      assert s[..n][..k + 1] == s[..k + 1];
      assert StandsFirst(s, a, b, k);
    } else {
      UniqueHolds(s[..n], a);
      assert a in front;
      var k :| 0 <= k < n && s[..n][k] == a;
      assert forall m :: 0 <= m < k + 1 ==> s[..k + 1][m] == s[..n][m];
      assert StandsFirst(s, a, b, k);
    }
  }

  lemma UniqueExactly(s: seq<Version>)
    ensures ListsFirsts(s, Unique(s))
  {
    hide Unique;
    var r := Unique(s);
    UniqueNoRepeats(s);
    forall v ensures v in r <==> v in s { UniqueHolds(s, v); }
    forall i, j | 0 <= i < j < |r| ensures IsAhead(s, r[i], r[j]) { UniqueInOrder(s, i, j); }
  }

  lemma StampExactly(e: Entry, floor: Version)
    ensures IsStampOf(Stamp(e, floor), e, floor)
  {
    hide Unique, ListsFirsts;
    UniqueExactly([floor] + e.facts.requiredStops);
  }

  lemma {:induction false} LastIsLast(entries: seq<Entry>, v: Version) returns (k: nat)
    requires Names(entries, v)
    ensures IsLast(entries, k) && entries[k].version == v && LastNamed(entries, v) == entries[k]
  {
    var n := |entries| - 1;
    NamesFront(entries, v);
    if entries[n].version == v {
      k := n;
    } else {
      k := LastIsLast(entries[..n], v);
      assert forall j :: 0 <= j < n ==> entries[..n][j] == entries[j];
    }
  }

  /** What a table holds is what it lists. */
  lemma ListedExactly(t: Table, e: Entry)
    requires Keyed(t)
    ensures e in Listed(t) <==> e.version in t && t[e.version] == e
  {
    var versions := Sorted(t.Keys);
    SortedLists(t.Keys);
    PickAt(t, versions);
    if e in Listed(t) {
      var k :| 0 <= k < |Listed(t)| && Listed(t)[k] == e;
      assert versions[k] in t.Keys;
    }
    if e.version in t && t[e.version] == e {
      var k :| 0 <= k < |versions| && versions[k] == e.version;
      assert Listed(t)[k] == e;
    }
  }

  lemma UpdatedAt(index: Index, entries: seq<Entry>, floor: Option<Version>, k: nat)
    requires IsLast(index.entries + entries, k)
    ensures var s, t := (index.entries + entries)[k], Updated(index, entries, floor);
      s.version in t && t[s.version].version == s.version && IsEntryFor(t[s.version], s, FloorOf(index, floor))
  {
    hide Stamp, IsStampOf, Put, LastNamed;
    var all := index.entries + entries;
    PutJoins(map[], index.entries, entries);
    LastNamedAt(all, k);
    PutAt(map[], all, all[k].version);
    StampExactly(all[k], all[k].version);
    UpdatedKeyed(index, entries, floor);
  }

  /** An updated index lists exactly the last entry of each version, and at the floor that entry with the floor as a stop. */
  lemma UpdateExactly(index: Index, entries: seq<Entry>, floor: Option<Version>)
    ensures var all, r := index.entries + entries, Update(index, entries, floor);
      && r.floor == (if floor != None then floor else index.floor)
      && (forall e :: e in r.entries ==> exists k: nat :: IsLast(all, k) && IsEntryFor(e, all[k], r.floor))
      && (forall k: nat :: IsLast(all, k) ==> exists e :: e in r.entries && IsEntryFor(e, all[k], r.floor))
  {
    hide IsEntryFor, Updated, Put, Listed, LastNamed;
    var all, r, t := index.entries + entries, Update(index, entries, floor), Updated(index, entries, floor);
    UpdatedKeyed(index, entries, floor);
    forall e | e in r.entries ensures exists k: nat :: IsLast(all, k) && IsEntryFor(e, all[k], r.floor) {
      ListedExactly(t, e);
      UpdatedNames(index, entries, floor, e.version);
      var k := LastIsLast(all, e.version);
      UpdatedAt(index, entries, floor, k);
    }
    forall k: nat | IsLast(all, k) ensures exists e :: e in r.entries && IsEntryFor(e, all[k], r.floor) {
      UpdatedAt(index, entries, floor, k);
      ListedExactly(t, t[all[k].version]);
    }
  }

  lemma UpdatedNames(index: Index, entries: seq<Entry>, floor: Option<Version>, v: Version)
    ensures v in Updated(index, entries, floor) <==> Names(index.entries + entries, v)
  {
    PutJoins(map[], index.entries, entries);
    PutAt(map[], index.entries + entries, v);
  }

  // ---- The backfill ------------------------------------------------------------------------------

  /** The floor the marker generator itself stamps, whatever floor a backfill was asked for. */
  const STANDING_FLOOR := Version(0, 1893, 0)

  /** Making a marker either works or falls back to what is known without the sources. */
  datatype Outcome = Generated(facts: Facts) | Degraded(facts: Facts)

  datatype Job = Job(tags: seq<Version>, floor: Version, make: (Version, Version) -> Outcome)

  function Append(index: Index, marker: Marker, backfilled: bool, floor: Version): Index {
    Update(index, [IndexEntryFromMarker(marker, backfilled)], Some(floor))
  }

  function MarkerOf(job: Job, k: nat): Marker
    requires 0 < k < |job.tags|
  {
    Marker(job.tags[k], Some(job.tags[k - 1]), job.make(job.tags[k], job.tags[k - 1]).facts)
  }

  /** The floor the append for a tag stamps. */
  function StampedFloor(job: Job, k: nat): Version
    requires 0 < k < |job.tags|
  {
    if job.make(job.tags[k], job.tags[k - 1]).Generated? then STANDING_FLOOR else job.floor
  }

  function Step(index: Index, job: Job, k: nat): Index
    requires 0 < k < |job.tags|
  {
    if Names(index.entries, job.tags[k]) then index else Append(index, MarkerOf(job, k), true, StampedFloor(job, k))
  }

  /** The index after the loop has dealt with tags `from` up to `to`. */
  function Run(index: Index, job: Job, from: nat, until: nat): Index
    requires 0 < from <= until <= |job.tags|
    decreases until
  {
    if from == until then index else Step(Run(index, job, from, until - 1), job, until - 1)
  }

  function Backfilled(index: Index, job: Job, from: nat, until: nat): Index
    requires 0 < from <= until <= |job.tags|
  {
    Update(Run(index, job, from, until), [], Some(job.floor))
  }

  function Position(tags: seq<Version>, v: Version): (r: int)
    ensures -1 <= r < |tags|
    ensures r >= 0 ==> tags[r] == v
    ensures r < 0 <==> v !in tags
  {
    if tags == [] then -1
    else if tags[0] == v then 0
    else
      var r := Position(tags[1..], v);
      if r < 0 then -1 else r + 1
  }

  datatype Error = NoPredecessor | InvalidTarget

  function FloorTag(argument: Option<Version>): Version { if argument.Some? then argument.value else STANDING_FLOOR }

  /** The last tag unless one is asked for. */
  function ThroughPosition(tags: seq<Version>, argument: Option<Version>): (r: int)
    ensures -1 <= r < |tags|
  {
    if argument.Some? then Position(tags, argument.value)
    else if tags == [] then -1
    else Position(tags, tags[|tags| - 1])
  }

  function Checked(tags: seq<Version>, floor: Version, through: Option<Version>): Result<(), Error> {
    if Position(tags, floor) <= 0 then Err(NoPredecessor)
    else if ThroughPosition(tags, through) < Position(tags, floor) then Err(InvalidTarget)
    else Ok(())
  }

  /** The file the index is kept in; every append reloads and rewrites it. */
  class IndexFile {
    var index: Index

    constructor ()
      ensures index == EMPTY
    {
      index := EMPTY;
    }

    method AppendReleaseSafetyMarker(marker: Marker, backfilled: bool, floor: Version)
      modifies this
      ensures index == Append(old(index), marker, backfilled, floor)
    {
      index := UpdateReleaseSafetyIndex(index, [IndexEntryFromMarker(marker, backfilled)], Some(floor));
    }

    /** One tag: nothing when it is listed, else its marker, or what is known of it without one. */
    method FillTag(job: Job, k: nat)
      requires 0 < k < |job.tags|
      modifies this
      ensures index == Step(old(index), job, k)
    {
      var version, previousVersion := job.tags[k], job.tags[k - 1];
      if Names(index.entries, version) { return; }
      match job.make(version, previousVersion)
      case Generated(facts) =>
        AppendReleaseSafetyMarker(Marker(version, Some(previousVersion), facts), true, STANDING_FLOOR);
      case Degraded(facts) =>
        AppendReleaseSafetyMarker(Marker(version, Some(previousVersion), facts), true, job.floor);
    }

    /** Reloads the index for every tag, appends a marker where there is none, and stamps the floor at the end. */
    method FillRange(job: Job, from: nat, until: nat)
      requires 0 < from <= until <= |job.tags|
      modifies this
      ensures index == Backfilled(old(index), job, from, until)
    {
      for k := from to until
        invariant index == Run(old(index), job, from, k)
      {
        FillTag(job, k);
      }
      index := UpdateReleaseSafetyIndex(index, [], Some(job.floor));
    }

    method Backfill(tags: seq<Version>, floorArgument: Option<Version>, throughArgument: Option<Version>,
                    make: (Version, Version) -> Outcome)
      returns (r: Result<(), Error>)
      modifies this
      ensures r == Checked(tags, FloorTag(floorArgument), throughArgument)
      ensures r.Err? ==> index == old(index)
      ensures r.Ok? ==> index == Backfilled(old(index), Job(tags, FloorTag(floorArgument), make),
        Position(tags, FloorTag(floorArgument)), ThroughPosition(tags, throughArgument) + 1)
    {
      var floor := FloorTag(floorArgument);
      var from := Position(tags, floor);
      if from <= 0 { return Err(NoPredecessor); }
      var through := ThroughPosition(tags, throughArgument);
      if through < from { return Err(InvalidTarget); }
      FillRange(Job(tags, floor, make), from, through + 1);
      return Ok(());
    }
  }

  lemma NamedInTable(index: Index, v: Version)
    ensures Names(index.entries, v) <==> v in TableOf(index)
  {
    PutAt(map[], index.entries, v);
  }

  lemma UpdateNames(index: Index, entries: seq<Entry>, floor: Option<Version>, v: Version)
    ensures Names(Update(index, entries, floor).entries, v) <==> Names(index.entries, v) || Names(entries, v)
  {
    UpdateTable(index, entries, floor);
    NamedInTable(Update(index, entries, floor), v);
    NamedInTable(index, v);
    PutAt(TableOf(index), entries, v);
  }

  lemma StepNames(index: Index, job: Job, k: nat, v: Version)
    requires 0 < k < |job.tags|
    ensures Names(Step(index, job, k).entries, v) <==> Names(index.entries, v) || v == job.tags[k]
  {
    if !Names(index.entries, job.tags[k]) {
      var entries := [IndexEntryFromMarker(MarkerOf(job, k), true)];
      assert Names(entries, v) <==> v == job.tags[k] by { assert entries[0].version == job.tags[k]; }
      UpdateNames(index, entries, Some(StampedFloor(job, k)), v);
    }
  }

  /** From one state to the next, the release of the tag is added. */
  ghost predicate AddsTag(states: nat -> Index, tags: seq<Version>, k: nat, v: Version)
    requires k < |tags|
  {
    Names(states(k + 1).entries, v) <==> Names(states(k).entries, v) || v == tags[k]
  }

  lemma {:induction false} NamesTagByTag(states: nat -> Index, tags: seq<Version>, from: nat, until: nat, v: Version)
    requires from <= until <= |tags| && forall k :: from <= k < until ==> AddsTag(states, tags, k, v)
    ensures Names(states(until).entries, v) <==> Names(states(from).entries, v) || v in tags[from..until]
    decreases until
  {
    if from < until {
      NamesTagByTag(states, tags, from, until - 1, v);
      OneMoreTag(tags, from, until, v);
      assert AddsTag(states, tags, until - 1, v);
    }
  }

  lemma RunStepNames(index: Index, job: Job, from: nat, k: nat, v: Version)
    requires 0 < from <= k < |job.tags|
    ensures Names(Run(index, job, from, k + 1).entries, v) <==> Names(Run(index, job, from, k).entries, v) || v == job.tags[k]
  {
    StepNames(Run(index, job, from, k), job, k, v);
  }

  lemma RunStarts(index: Index, job: Job, from: nat)
    requires 0 < from <= |job.tags|
    ensures Run(index, job, from, from) == index
  {}

  lemma RunNames(index: Index, job: Job, from: nat, until: nat, v: Version)
    requires 0 < from <= until <= |job.tags|
    ensures Names(Run(index, job, from, until).entries, v) <==> Names(index.entries, v) || v in job.tags[from..until]
  {
    hide Run, Names;
    RunStarts(index, job, from);
    var states := (k: nat) => if from <= k <= |job.tags| then Run(index, job, from, k) else index;
    forall k | from <= k < until ensures AddsTag(states, job.tags, k, v) { RunStepNames(index, job, from, k, v); }
    NamesTagByTag(states, job.tags, from, until, v);
  }

  lemma OneMoreTag(tags: seq<Version>, from: nat, until: nat, v: Version)
    requires from < until <= |tags|
    ensures v in tags[from..until] <==> v in tags[from..until - 1] || v == tags[until - 1]
  {
    assert tags[from..until] == tags[from..until - 1] + [tags[until - 1]];
  }

  /** After a whole run no release of the range is missing. */
  lemma BackfillCovers(index: Index, job: Job, from: nat, until: nat, v: Version)
    requires 0 < from <= until <= |job.tags|
    ensures Names(Backfilled(index, job, from, until).entries, v) <==> Names(index.entries, v) || v in job.tags[from..until]
  {
    RunNames(index, job, from, until, v);
    UpdateNames(Run(index, job, from, until), [], Some(job.floor), v);
  }

  // ---- Interruptions -------------------------------------------------------------------------------

  /** A run over releases that are all there already does nothing. */
  lemma {:induction false} RunOverPresent(index: Index, job: Job, from: nat, until: nat)
    requires 0 < from <= until <= |job.tags|
    requires forall k :: from <= k < until ==> Names(index.entries, job.tags[k])
    ensures Run(index, job, from, until) == index
    decreases until
  {
    if from < until {
      RunOverPresent(index, job, from, until - 1);
      assert Names(index.entries, job.tags[until - 1]);
    }
  }

  lemma {:induction false} RunAgain(index: Index, job: Job, from: nat, m: nat, until: nat)
    requires 0 < from <= m <= until <= |job.tags|
    ensures Run(Run(index, job, from, m), job, from, until) == Run(index, job, from, until)
    decreases until
  {
    if m == until {
      forall k | from <= k < until ensures Names(Run(index, job, from, m).entries, job.tags[k]) {
        RunNames(index, job, from, m, job.tags[k]);
        assert job.tags[from..m][k - from] == job.tags[k];
      }
      RunOverPresent(Run(index, job, from, m), job, from, until);
    } else {
      RunAgain(index, job, from, m, until - 1);
    }
  }

  /** What runs leave behind that stop, one after the other, just before the given tags. */
  function Attempts(index: Index, job: Job, from: nat, stops: seq<nat>): Index
    requires 0 < from && forall k :: 0 <= k < |stops| ==> from <= stops[k] <= |job.tags|
  {
    if stops == [] then index
    else Run(Attempts(index, job, from, stops[..|stops| - 1]), job, from, stops[|stops| - 1])
  }

  /** However often the backfill was interrupted, running it to the end gives what one run would have given. */
  lemma {:induction false} BackfillResumes(index: Index, job: Job, from: nat, until: nat, stops: seq<nat>)
    requires 0 < from <= until <= |job.tags| && forall k :: 0 <= k < |stops| ==> from <= stops[k] <= until
    ensures Backfilled(Attempts(index, job, from, stops), job, from, until) == Backfilled(index, job, from, until)
  {
    if stops != [] {
      var n := |stops| - 1;
      BackfillResumes(index, job, from, until, stops[..n]);
      RunAgain(Attempts(index, job, from, stops[..n]), job, from, stops[n], until);
    }
  }

  /** Running it once more after it finished changes nothing. */
  lemma BackfillTwice(index: Index, job: Job, from: nat, until: nat)
    requires 0 < from <= until <= |job.tags|
    ensures Backfilled(Backfilled(index, job, from, until), job, from, until) == Backfilled(index, job, from, until)
  {
    var done := Backfilled(index, job, from, until);
    forall k | from <= k < until ensures Names(done.entries, job.tags[k]) {
      BackfillCovers(index, job, from, until, job.tags[k]);
      assert job.tags[from..until][k - from] == job.tags[k];
    }
    RunOverPresent(done, job, from, until);
    UpdateIdempotent(Run(index, job, from, until), [], Some(job.floor));
  }

  // ---- Entries that were there before ------------------------------------------------------------------

  /** Some release of the range is missing and gets a generated marker. */
  predicate GeneratesSome(index: Index, job: Job, from: nat, until: nat)
    requires 0 < from <= until <= |job.tags|
  {
    exists k :: from <= k < until && GeneratesAt(index, job, k)
  }

  predicate GeneratesAt(index: Index, job: Job, k: int)
    requires 0 < k < |job.tags|
  {
    !Names(index.entries, job.tags[k]) && job.make(job.tags[k], job.tags[k - 1]).Generated?
  }

  function StampIf(e: Entry, stamped: bool): Entry { if stamped then Stamp(e, e.version) else e }

  lemma StampIfTwice(e: Entry, a: bool, b: bool)
    ensures StampIf(StampIf(e, a), b) == StampIf(e, a || b)
  {
    StampOnce(e, e.version);
  }

  lemma UpdateKeeps(index: Index, entries: seq<Entry>, floor: Version, v: Version)
    requires v in TableOf(index) && !Names(entries, v)
    ensures v in TableOf(Update(index, entries, Some(floor)))
    ensures TableOf(Update(index, entries, Some(floor)))[v] == StampIf(TableOf(index)[v], v == floor)
  {
    UpdateTable(index, entries, Some(floor));
    PutAt(TableOf(index), entries, v);
    PutKeyed(map[], index.entries);
  }

  /** Only an append's own floor touches an entry that was there before. */
  lemma StepKeeps(index: Index, job: Job, k: nat, v: Version)
    requires 0 < k < |job.tags| && v in TableOf(index) && v != job.floor
    ensures v in TableOf(Step(index, job, k))
    ensures TableOf(Step(index, job, k))[v] == StampIf(TableOf(index)[v], v == STANDING_FLOOR && GeneratesAt(index, job, k))
  {
    NamedInTable(index, v);
    if !Names(index.entries, job.tags[k]) {
      var entries := [IndexEntryFromMarker(MarkerOf(job, k), true)];
      assert !Names(entries, v);
      UpdateKeeps(index, entries, StampedFloor(job, k), v);
    }
  }

  lemma {:induction false} RunKeeps(index: Index, job: Job, from: nat, until: nat, v: Version)
    requires 0 < from <= until <= |job.tags| && NoRepeats(job.tags) && v in TableOf(index) && v != job.floor
    ensures v in TableOf(Run(index, job, from, until))
    ensures TableOf(Run(index, job, from, until))[v]
      == StampIf(TableOf(index)[v], v == STANDING_FLOOR && GeneratesSome(index, job, from, until))
    decreases until
  {
    hide Names, Stamp, TableOf, Step;
    if from < until {
      var before := Run(index, job, from, until - 1);
      RunKeeps(index, job, from, until - 1, v);
      StepKeeps(before, job, until - 1, v);
      RunNames(index, job, from, until - 1, job.tags[until - 1]);
      assert job.tags[until - 1] !in job.tags[from..until - 1];
      assert GeneratesAt(before, job, until - 1) <==> GeneratesAt(index, job, until - 1);
      StampIfTwice(TableOf(index)[v], v == STANDING_FLOOR && GeneratesSome(index, job, from, until - 1),
        v == STANDING_FLOOR && GeneratesAt(index, job, until - 1));
    }
  }

  /**
   An existing entry other than the floor's comes through a backfill as it was, except for
   the standing floor's entry when a marker could be generated: that one is stamped too.
   */
  lemma BackfillKeeps(index: Index, job: Job, from: nat, until: nat, v: Version)
    requires 0 < from <= until <= |job.tags| && NoRepeats(job.tags) && v in TableOf(index) && v != job.floor
    ensures v in TableOf(Backfilled(index, job, from, until))
    ensures TableOf(Backfilled(index, job, from, until))[v]
      == StampIf(TableOf(index)[v], v == STANDING_FLOOR && GeneratesSome(index, job, from, until))
  {
    RunKeeps(index, job, from, until, v);
    UpdateKeeps(Run(index, job, from, until), [], job.floor, v);
  }

  /** So every entry but the floor's is left alone exactly when the standing floor's has nothing to gain. */
  lemma BackfillLeavesOthersAlone(index: Index, job: Job, from: nat, until: nat)
    requires 0 < from <= until <= |job.tags| && NoRepeats(job.tags)
    ensures (forall v :: v in TableOf(index) && v != job.floor ==> SameIn(index, Backfilled(index, job, from, until), v))
      <==> (job.floor == STANDING_FLOOR || STANDING_FLOOR !in TableOf(index)
            || Stamped(TableOf(index)[STANDING_FLOOR], STANDING_FLOOR) || !GeneratesSome(index, job, from, until))
  {
    forall v | v in TableOf(index) && v != job.floor ensures v in TableOf(Backfilled(index, job, from, until))
      ensures TableOf(Backfilled(index, job, from, until))[v]
        == StampIf(TableOf(index)[v], v == STANDING_FLOOR && GeneratesSome(index, job, from, until))
    {
      BackfillKeeps(index, job, from, until, v);
    }
    PutKeyed(map[], index.entries);
    if forall v :: v in TableOf(index) && v != job.floor ==> SameIn(index, Backfilled(index, job, from, until), v) {
      if job.floor != STANDING_FLOOR && STANDING_FLOOR in TableOf(index) {
        assert SameIn(index, Backfilled(index, job, from, until), STANDING_FLOOR);
      }
    }
  }

  /**
   A backfill from 0.1900.0 on gives the listed 0.1893.0 a required stop that it did not have,
   because the marker of 0.1900.0 could be generated.
   */
  lemma BackfillAltersAnother() returns (index: Index, job: Job, from: nat, until: nat)
    ensures 0 < from < until <= |job.tags| && job.tags[from] == job.floor == Version(0, 1900, 0)
    ensures STANDING_FLOOR in TableOf(index) && TableOf(index)[STANDING_FLOOR].facts.requiredStops == []
    ensures var after := TableOf(Backfilled(index, job, from, until));
      STANDING_FLOOR in after && after[STANDING_FLOOR].facts.requiredStops == [STANDING_FLOOR]
  {
    var facts := Facts("", Safe, [], None);
    var entry := Entry(STANDING_FLOOR, None, facts, true, false);
    index := Index(None, [entry]);
    var floor := Version(0, 1900, 0);
    job := Job([STANDING_FLOOR, floor], floor, (version: Version, previous: Version) => Generated(facts));
    from, until := 1, 2;
    assert index.entries[0] == entry;
    NamedInTable(index, floor);
    NamedInTable(index, STANDING_FLOOR);
    PutAt(map[], index.entries, STANDING_FLOOR);
    assert GeneratesAt(index, job, 1);
    BackfillKeeps(index, job, from, until, STANDING_FLOOR);
    assert [STANDING_FLOOR] + [] == [STANDING_FLOOR] && [STANDING_FLOOR][..0] == [];
    assert Unique([]) == [] && Unique([STANDING_FLOOR]) == [STANDING_FLOOR];
  }

  predicate SameIn(before: Index, after: Index, v: Version) {
    v in TableOf(before) && v in TableOf(after) && TableOf(before)[v] == TableOf(after)[v]
  }

  // ---- Entries that were not ---------------------------------------------------------------------------

  /** An entry made from a marker says what the marker says. */
  ghost predicate IsOf(e: Entry, marker: Marker, backfilled: bool) {
    && e.version == marker.version && e.previousVersion == marker.previousVersion && e.facts == marker.facts
    && e.backfilled == backfilled && !e.syntheticRequiredStop
  }

  /** A marker that was appended is listed, with a stop at the floor when it is the floor's. */
  lemma AppendExactly(index: Index, marker: Marker, backfilled: bool, floor: Version) returns (s: Entry)
    ensures IsOf(s, marker, backfilled)
    ensures exists e :: e in Append(index, marker, backfilled, floor).entries && IsEntryFor(e, s, Some(floor))
  {
    hide IsEntryFor, Update;
    s := IndexEntryFromMarker(marker, backfilled);
    UpdateExactly(index, [s], Some(floor));
    var all := index.entries + [s];
    assert IsLast(all, |index.entries|) && all[|index.entries|] == s;
  }

  lemma StepAdds(index: Index, job: Job, k: nat)
    requires 0 < k < |job.tags| && !Names(index.entries, job.tags[k])
    ensures var t, s := TableOf(Step(index, job, k)), IndexEntryFromMarker(MarkerOf(job, k), true);
      job.tags[k] in t && t[job.tags[k]] == StampIf(s, job.tags[k] == StampedFloor(job, k))
  {
    hide Stamp;
    var s := IndexEntryFromMarker(MarkerOf(job, k), true);
    UpdateTable(index, [s], Some(StampedFloor(job, k)));
    assert [s][0] == s && Put(TableOf(index), [s])[s.version] == s;
  }

  lemma {:induction false} RunAdds(index: Index, job: Job, from: nat, until: nat, k: nat)
    requires 0 < from <= k < until <= |job.tags| && NoRepeats(job.tags) && !Names(index.entries, job.tags[k])
    ensures var t, s := TableOf(Run(index, job, from, until)), IndexEntryFromMarker(MarkerOf(job, k), true);
      job.tags[k] in t && IsKept(t[job.tags[k]], s, job)
    decreases until
  {
    hide Stamp, TableOf, Names;
    var before := Run(index, job, from, until - 1);
    if k == until - 1 {
      RunNames(index, job, from, k, job.tags[k]);
      assert job.tags[k] !in job.tags[from..k];
      StepAdds(before, job, k);
      KeptOnce(IndexEntryFromMarker(MarkerOf(job, k), true), job, StampedFloor(job, k));
    } else {
      RunAdds(index, job, from, until - 1, k);
      LaterStepKeeps(before, job, until - 1, IndexEntryFromMarker(MarkerOf(job, k), true));
    }
  }

  /** As it was made, or, for one of the two floors, stamped. */
  ghost predicate IsKept(e: Entry, s: Entry, job: Job) {
    e == s || (s.version in {job.floor, STANDING_FLOOR} && e == Stamp(s, s.version))
  }

  lemma KeptOnce(s: Entry, job: Job, floor: Version)
    requires floor in {job.floor, STANDING_FLOOR}
    ensures IsKept(StampIf(s, s.version == floor), s, job)
  {}

  lemma KeptAgain(e: Entry, s: Entry, job: Job, floor: Version)
    requires IsKept(e, s, job) && floor in {job.floor, STANDING_FLOOR}
    ensures IsKept(StampIf(e, s.version == floor), s, job)
  {
    StampOnce(s, s.version);
  }

  lemma LaterStepKeeps(index: Index, job: Job, k: nat, s: Entry)
    requires 0 < k < |job.tags| && s.version != job.tags[k]
    requires s.version in TableOf(index) && IsKept(TableOf(index)[s.version], s, job)
    ensures s.version in TableOf(Step(index, job, k)) && IsKept(TableOf(Step(index, job, k))[s.version], s, job)
  {
    hide Stamp, TableOf, StampIf, IsKept;
    if !Names(index.entries, job.tags[k]) {
      var entries := [IndexEntryFromMarker(MarkerOf(job, k), true)];
      UpdateKeeps(index, entries, StampedFloor(job, k), s.version);
      KeptAgain(TableOf(index)[s.version], s, job, StampedFloor(job, k));
    }
  }

  /**
   A backfill lists every release of its range that was missing, as made from its own tag and the
   tag before it; only the entries of the two floors get a stop in addition.
   */
  lemma BackfillAdds(index: Index, job: Job, from: nat, until: nat, k: nat) returns (e: Entry, s: Entry)
    requires 0 < from <= k < until <= |job.tags| && NoRepeats(job.tags) && !Names(index.entries, job.tags[k])
    ensures e in Backfilled(index, job, from, until).entries
    ensures IsOf(s, Marker(job.tags[k], Some(job.tags[k - 1]), job.make(job.tags[k], job.tags[k - 1]).facts), true)
    ensures e == s || (s.version in {job.floor, Version(0, 1893, 0)} && IsStampOf(e, s, s.version))
  {
    hide Stamp, Put, Run, Listed, IsStampOf;
    s := IndexEntryFromMarker(MarkerOf(job, k), true);
    var done := Run(index, job, from, until);
    RunAdds(index, job, from, until, k);
    UpdateKeeps(done, [], job.floor, s.version);
    KeptAgain(TableOf(done)[s.version], s, job, job.floor);
    UpdateTable(done, [], Some(job.floor));
    UpdatedKeyed(done, [], Some(job.floor));
    e := Updated(done, [], Some(job.floor))[s.version];
    ListedExactly(Updated(done, [], Some(job.floor)), e);
    StampExactly(s, s.version);
  }

  /** `p` is where the tag first stands. */
  ghost predicate IsFirstAt(tags: seq<Version>, p: int, tag: Version) { 0 <= p < |tags| && tags[p] == tag && tag !in tags[..p] }

  lemma {:induction false} PositionExactly(tags: seq<Version>, v: Version, p: nat)
    ensures Position(tags, v) == p <==> IsFirstAt(tags, p, v)
  {
    if tags != [] && tags[0] != v {
      if p > 0 {
        PositionExactly(tags[1..], v, p - 1);
        assert p <= |tags| ==> tags[..p] == [tags[0]] + tags[1..][..p - 1];
      }
    } else if tags != [] && p > 0 && p <= |tags| {
      assert tags[..p][0] == v;
    }
  }

  /** The last tag asked for, or else the last one. */
  ghost predicate IsTarget(tags: seq<Version>, through: Option<Version>, tag: Version) {
    if through.Some? then tag == through.value else tags != [] && tag == tags[|tags| - 1]
  }

  /** The floor has a tag in front of it, and the last tag asked for is not before the floor. */
  ghost predicate IsRange(tags: seq<Version>, floor: Version, through: Option<Version>, p: int, q: int) {
    0 < p <= q && IsFirstAt(tags, p, floor) && exists tag :: IsTarget(tags, through, tag) && IsFirstAt(tags, q, tag)
  }

  /** Which range is filled, and that there is none exactly when the request is refused. */
  lemma CheckedExactly(tags: seq<Version>, floor: Version, through: Option<Version>)
    ensures Checked(tags, floor, through) == Err(NoPredecessor) <==> floor !in tags || tags[0] == floor
    ensures Checked(tags, floor, through).Ok? ==> IsRange(tags, floor, through, Position(tags, floor), ThroughPosition(tags, through))
    ensures Checked(tags, floor, through).Err? ==> forall p, q :: !IsRange(tags, floor, through, p, q)
  {
    hide Position, IsFirstAt;
    forall v, p: nat ensures Position(tags, v) == p <==> IsFirstAt(tags, p, v) { PositionExactly(tags, v, p); }
    forall v, p ensures IsFirstAt(tags, p, v) ==> p >= 0 { NotBefore(tags, p, v); }
    if tags != [] { FirstStandsFirst(tags, floor); }
    if Checked(tags, floor, through).Ok? {
      assert IsFirstAt(tags, Position(tags, floor), floor);
      assert IsTarget(tags, through, if through.Some? then through.value else tags[|tags| - 1]);
    }
  }

  lemma NotBefore(tags: seq<Version>, p: int, v: Version)
    ensures IsFirstAt(tags, p, v) ==> p >= 0
  {}

  lemma FirstStandsFirst(tags: seq<Version>, v: Version)
    requires tags != []
    ensures Position(tags, v) == 0 <==> tags[0] == v
  {}
}
