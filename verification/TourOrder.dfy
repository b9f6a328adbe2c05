/**
 The teaching order of a library section, from scripts/scope-tours/order.ts: topics are
 placed one by one, each time one with the fewest prerequisites still open, and the
 lessons of a topic follow the docs' own headings.
 */
module TourOrder {
  import opened Options
  import opened Sequences
  import opened Sorting
  import Graphs

  datatype Lesson = Lesson(scope: string, title: string, stepCount: int)

  datatype Citation = Citation(page: string, anchor: string)

  /** The docs a section is ordered by: citations, prerequisites, heading ranks, and the locale's collation. */
  datatype Docs = Docs(
    cite: map<string, Citation>, deps: map<string, set<string>>, headingRank: Citation -> int, collation: string -> int)

  function PageOf(m: Lesson, docs: Docs): string {
    if m.scope in docs.cite then docs.cite[m.scope].page else ""
  }

  function Leans(docs: Docs): (string, string) -> bool {
    (a, b) => a in docs.deps && b in docs.deps[a]
  }

  // ---- Topics -------------------------------------------------------------------------------

  predicate IsTopic(modules: seq<Lesson>, docs: Docs, topic: string) {
    exists k :: 0 <= k < |modules| && PageOf(modules[k], docs) == topic
  }

  method Topics(modules: seq<Lesson>, docs: Docs) returns (topics: seq<string>)
    ensures NoRepeats(topics)
    ensures forall t :: t in topics <==> IsTopic(modules, docs, t)
  {
    topics := [];
    for k := 0 to |modules|
      invariant NoRepeats(topics)
      invariant forall j :: 0 <= j < k ==> PageOf(modules[j], docs) in topics
      invariant forall t :: t in topics ==> IsTopic(modules, docs, t)
    {
      var page := PageOf(modules[k], docs);
      if page !in topics { topics := topics + [page]; }
    }
  }

  /** The topics not placed yet. */
  function Left(topics: seq<string>, placed: seq<string>): set<string> {
    set t | t in topics && t !in placed
  }

  function Open(topic: string, left: set<string>, docs: Docs): set<string> {
    set d | topic in docs.deps && d in docs.deps[topic] && d in left
  }

  function Unmet(topic: string, left: set<string>, docs: Docs): nat { |Open(topic, left, docs)| }

  /** The shortest lesson of a topic. */
  function Size(modules: seq<Lesson>, docs: Docs, topic: string): (r: Option<int>)
    ensures r.Some? <==> IsTopic(modules, docs, topic)
    ensures r.Some? ==> forall k :: 0 <= k < |modules| && PageOf(modules[k], docs) == topic ==> r.value <= modules[k].stepCount
    ensures r.Some? ==> exists k :: 0 <= k < |modules| && PageOf(modules[k], docs) == topic && r.value == modules[k].stepCount
  {
    if modules == [] then None
    else
      var n := |modules| - 1;
      var rest := Size(modules[..n], docs, topic);
      assert rest.Some? ==> exists k :: 0 <= k < n && PageOf(modules[..n][k], docs) == topic && rest.value == modules[..n][k].stepCount;
      assert forall k :: 0 <= k < n ==> modules[..n][k] == modules[k];
      if PageOf(modules[n], docs) != topic then rest
      else if rest.None? || modules[n].stepCount < rest.value then Some(modules[n].stepCount)
      else rest
  }

  predicate SizeBelow(a: Option<int>, b: Option<int>) { a.Some? && b.Some? && a.value < b.value }

  /** `a` is placed no later than `b` among topics with equally many open prerequisites. */
  predicate NoLater(a: string, b: string, modules: seq<Lesson>, docs: Docs) {
    var x, y := Size(modules, docs, a), Size(modules, docs, b);
    SizeBelow(x, y) || (!SizeBelow(y, x) && docs.collation(a) <= docs.collation(b))
  }

  /** The greedy choice: fewest open prerequisites, then the shorter topic, then the name. */
  predicate IsNext(next: string, left: set<string>, modules: seq<Lesson>, docs: Docs) {
    && next in left
    && (forall t :: t in left ==> Unmet(next, left, docs) <= Unmet(t, left, docs))
    && (forall t :: t in left && Unmet(t, left, docs) == Unmet(next, left, docs) ==> NoLater(next, t, modules, docs))
  }

  /** The lesson is on the page that its scope cites, or on the nameless one. */
  ghost predicate IsOn(m: Lesson, page: string, docs: Docs) {
    if m.scope in docs.cite then page == docs.cite[m.scope].page else page == ""
  }

  /** `n` is the length of the shortest lesson on the page. */
  ghost predicate IsShortest(modules: seq<Lesson>, docs: Docs, page: string, n: int) {
    && (exists m :: m in modules && IsOn(m, page, docs) && m.stepCount == n)
    && forall m :: m in modules && IsOn(m, page, docs) ==> n <= m.stepCount
  }

  /** The topics still to be placed that the docs have in front of this one. */
  ghost predicate IsAwaited(open: set<string>, topic: string, left: set<string>, docs: Docs) {
    forall d :: d in open <==> topic in docs.deps && d in docs.deps[topic] && d in left
  }

  ghost predicate AwaitsNoMore(a: string, b: string, left: set<string>, docs: Docs) {
    forall x, y :: IsAwaited(x, a, left, docs) && IsAwaited(y, b, left, docs) ==> |x| <= |y|
  }

  ghost predicate AwaitsAsMany(a: string, b: string, left: set<string>, docs: Docs) {
    forall x, y :: IsAwaited(x, a, left, docs) && IsAwaited(y, b, left, docs) ==> |x| == |y|
  }

  /** A shorter lesson is on the page, or as short a one and its name comes no later. */
  ghost predicate StartsNoLater(a: string, b: string, modules: seq<Lesson>, docs: Docs) {
    forall m, n :: IsShortest(modules, docs, a, m) && IsShortest(modules, docs, b, n) ==>
      m < n || (m == n && docs.collation(a) <= docs.collation(b))
  }

  lemma ShortestExactly(modules: seq<Lesson>, docs: Docs, page: string, n: int)
    ensures Size(modules, docs, page) == Some(n) <==> IsShortest(modules, docs, page, n)
  {
    hide Size;
    forall m | m in modules ensures exists k :: 0 <= k < |modules| && modules[k] == m {}
    var size := Size(modules, docs, page);
    if size.Some? {
      var k :| 0 <= k < |modules| && PageOf(modules[k], docs) == page && size.value == modules[k].stepCount;
      assert modules[k] in modules && IsOn(modules[k], page, docs);
    }
    if IsShortest(modules, docs, page, n) {
      var m :| m in modules && IsOn(m, page, docs) && m.stepCount == n;
      assert PageOf(m, docs) == page;
    }
  }

  lemma AwaitedExactly(open: set<string>, topic: string, left: set<string>, docs: Docs)
    ensures IsAwaited(open, topic, left, docs) <==> open == Open(topic, left, docs)
  {}

  lemma AwaitedCount(a: string, b: string, left: set<string>, docs: Docs)
    ensures AwaitsNoMore(a, b, left, docs) <==> Unmet(a, left, docs) <= Unmet(b, left, docs)
    ensures AwaitsAsMany(a, b, left, docs) <==> Unmet(a, left, docs) == Unmet(b, left, docs)
  {
    hide IsAwaited, Open;
    forall open, t: string ensures IsAwaited(open, t, left, docs) <==> open == Open(t, left, docs) { AwaitedExactly(open, t, left, docs); }
  }

  lemma StartsExactly(a: string, b: string, modules: seq<Lesson>, docs: Docs)
    requires IsTopic(modules, docs, a) && IsTopic(modules, docs, b)
    ensures NoLater(a, b, modules, docs) <==> StartsNoLater(a, b, modules, docs)
  {
    hide IsShortest, Size;
    forall t: string, n ensures Size(modules, docs, t) == Some(n) <==> IsShortest(modules, docs, t, n) { ShortestExactly(modules, docs, t, n); }
    assert Size(modules, docs, a).Some? && Size(modules, docs, b).Some?;
  }

  /** The topic placed next waits for the fewest others, and among those that do has the shortest lesson, or the first name. */
  lemma NextExactly(next: string, left: set<string>, modules: seq<Lesson>, docs: Docs)
    requires forall t :: t in left ==> IsTopic(modules, docs, t)
    ensures IsNext(next, left, modules, docs) <==>
      && next in left
      && forall t :: t in left ==>
        AwaitsNoMore(next, t, left, docs) && (AwaitsAsMany(t, next, left, docs) ==> StartsNoLater(next, t, modules, docs))
  {
    hide Unmet, AwaitsNoMore, AwaitsAsMany, NoLater, StartsNoLater;
    forall a, b { AwaitedCount(a, b, left, docs); }
    if next in left {
      forall t | t in left { StartsExactly(next, t, modules, docs); }
    }
  }

  lemma NoLaterOrders(a: string, b: string, c: string, modules: seq<Lesson>, docs: Docs)
    requires IsTopic(modules, docs, a) && IsTopic(modules, docs, b) && IsTopic(modules, docs, c)
    ensures NoLater(a, b, modules, docs) || NoLater(b, a, modules, docs)
    ensures NoLater(a, b, modules, docs) && NoLater(b, c, modules, docs) ==> NoLater(a, c, modules, docs)
  {}

  method FewestUnmet(left: set<string>, candidates: seq<string>, docs: Docs) returns (fewest: nat)
    requires candidates != []
    ensures forall t :: t in candidates ==> fewest <= Unmet(t, left, docs)
    ensures exists t :: t in candidates && fewest == Unmet(t, left, docs)
  {
    fewest := Unmet(candidates[0], left, docs);
    for k := 0 to |candidates|
      invariant forall j :: 0 <= j < k ==> fewest <= Unmet(candidates[j], left, docs)
      invariant exists t :: t in candidates && fewest == Unmet(t, left, docs)
    {
      var unmet := Unmet(candidates[k], left, docs);
      if unmet < fewest { fewest := unmet; }
    }
  }

  /** The first of the candidates in the order of size and name. */
  method FirstOf(candidates: seq<string>, modules: seq<Lesson>, docs: Docs) returns (first: string)
    requires candidates != [] && forall t :: t in candidates ==> IsTopic(modules, docs, t)
    ensures first in candidates && forall t :: t in candidates ==> NoLater(first, t, modules, docs)
  {
    first := candidates[0];
    for k := 0 to |candidates|
      invariant first in candidates
      invariant forall j :: 0 <= j < k ==> NoLater(first, candidates[j], modules, docs)
    {
      var t := candidates[k];
      if !NoLater(first, t, modules, docs) {
        forall j | 0 <= j < k ensures NoLater(t, candidates[j], modules, docs) {
          NoLaterOrders(t, first, candidates[j], modules, docs);
        }
        first := t;
      }
      NoLaterOrders(first, t, t, modules, docs);
    }
  }

  function WithUnmet(candidates: seq<string>, n: nat, left: set<string>, docs: Docs): (r: seq<string>)
    ensures forall t :: t in r <==> t in candidates && Unmet(t, left, docs) == n
  {
    if candidates == [] then []
    else
      var last := candidates[|candidates| - 1];
      var rest := WithUnmet(candidates[..|candidates| - 1], n, left, docs);
      if Unmet(last, left, docs) == n then rest + [last] else rest
  }

  lemma FirstIsNext(next: string, left: set<string>, fewest: nat, modules: seq<Lesson>, docs: Docs)
    requires next in left && Unmet(next, left, docs) == fewest && forall t :: t in left ==> fewest <= Unmet(t, left, docs)
    requires forall t :: t in left && Unmet(t, left, docs) == fewest ==> NoLater(next, t, modules, docs)
    ensures IsNext(next, left, modules, docs)
  {}

  method PickNext(left: set<string>, candidates: seq<string>, modules: seq<Lesson>, docs: Docs) returns (next: string)
    requires candidates != [] && forall t :: t in left <==> t in candidates
    requires forall t :: t in candidates ==> IsTopic(modules, docs, t)
    ensures IsNext(next, left, modules, docs)
    ensures next in left
    ensures forall t :: t in left ==>
      AwaitsNoMore(next, t, left, docs) && (AwaitsAsMany(t, next, left, docs) ==> StartsNoLater(next, t, modules, docs))
  {
    hide IsNext, AwaitsNoMore, AwaitsAsMany, StartsNoLater;
    var fewest := FewestUnmet(left, candidates, docs);
    next := FirstOf(WithUnmet(candidates, fewest, left, docs), modules, docs);
    FirstIsNext(next, left, fewest, modules, docs);
    NextExactly(next, left, modules, docs);
  }

  /** Every topic once, each placed by the greedy choice. */
  ghost predicate IsGreedyOrder(ordered: seq<string>, topics: seq<string>, modules: seq<Lesson>, docs: Docs) {
    && NoRepeats(ordered)
    && (forall t :: t in ordered <==> t in topics)
    && (forall k :: 0 <= k < |ordered| ==> IsNext(ordered[k], Left(topics, ordered[..k]), modules, docs))
  }

  method OrderTopics(topics: seq<string>, modules: seq<Lesson>, docs: Docs) returns (ordered: seq<string>)
    requires NoRepeats(topics) && forall t :: t in topics ==> IsTopic(modules, docs, t)
    ensures IsGreedyOrder(ordered, topics, modules, docs)
  {
    ordered := [];
    while |ordered| < |topics|
      invariant NoRepeats(ordered) && |ordered| <= |topics|
      invariant forall t :: t in ordered ==> t in topics
      invariant forall k :: 0 <= k < |ordered| ==> IsNext(ordered[k], Left(topics, ordered[..k]), modules, docs)
    {
      var left := Unplaced(topics, ordered);
      if left == [] {
        NoRepeatsFit(topics, set t | t in ordered);
        MembersFit(ordered);
        assert false;
      }
      var next := PickNext(Left(topics, ordered), left, modules, docs);
      ghost var before := ordered;
      ordered := ordered + [next];
      assert ordered[..|before|] == before;
      assert forall k :: 0 <= k < |before| ==> ordered[..k] == before[..k];
      assert |ordered| <= |topics| by {
        NoRepeatsFit(ordered, set t | t in topics);
        MembersFit(topics);
      }
    }
    if t :| t in topics && t !in ordered {
      NoRepeatsFit(ordered + [t], set u | u in topics);
      MembersFit(topics);
      assert false;
    }
  }

  function Unplaced(topics: seq<string>, placed: seq<string>): (r: seq<string>)
    ensures forall t :: t in r <==> t in topics && t !in placed
  {
    if topics == [] then []
    else
      var rest := Unplaced(topics[..|topics| - 1], placed);
      var last := topics[|topics| - 1];
      if last in placed then rest else rest + [last]
  }

  /** Every topic stands behind the topics it leans on. */
  predicate Respects(ordered: seq<string>, docs: Docs) {
    forall i, j :: 0 <= i < |ordered| && 0 <= j < |ordered| && Leans(docs)(ordered[i], ordered[j]) ==> j < i
  }

  lemma NextIsReady(next: string, left: set<string>, nodes: set<string>, modules: seq<Lesson>, docs: Docs)
    requires Graphs.Acyclic(Leans(docs), nodes) && left <= nodes && IsNext(next, left, modules, docs)
    ensures Open(next, left, docs) == {}
  {
    Graphs.SinkExists(Leans(docs), nodes, left);
    var sink :| Graphs.IsSink(Leans(docs), left, sink);
    assert Open(sink, left, docs) == {} by {
      forall d ensures d !in Open(sink, left, docs) { assert d in left ==> !Leans(docs)(sink, d); }
    }
    assert Unmet(next, left, docs) <= Unmet(sink, left, docs);
  }

  lemma AcyclicIsRespected(ordered: seq<string>, topics: seq<string>, modules: seq<Lesson>, docs: Docs)
    requires IsGreedyOrder(ordered, topics, modules, docs)
    requires Graphs.Acyclic(Leans(docs), set t | t in topics)
    ensures Respects(ordered, docs)
  {
    forall i, j | 0 <= i < |ordered| && 0 <= j < |ordered| && Leans(docs)(ordered[i], ordered[j]) ensures j < i {
      var left := Left(topics, ordered[..i]);
      NextIsReady(ordered[i], left, (set t | t in topics), modules, docs);
      assert ordered[j] !in Open(ordered[i], left, docs);
    }
  }

  lemma RespectedIsAcyclic(ordered: seq<string>, topics: seq<string>, docs: Docs)
    requires NoRepeats(ordered) && (forall t :: t in ordered <==> t in topics)
    requires Respects(ordered, docs)
    ensures Graphs.Acyclic(Leans(docs), set t | t in topics)
  {
    var nodes := set t | t in topics;
    var ranks: map<string, nat> := map t | t in nodes :: Index(ordered, t);
    assert Graphs.Ranks(Leans(docs), nodes, ranks);
    Graphs.RankedIffAcyclic(Leans(docs), nodes);
  }

  function Index(ordered: seq<string>, t: string): (k: nat)
    requires t in ordered
    ensures k < |ordered| && ordered[k] == t
  {
    if ordered[0] == t then 0 else 1 + Index(ordered[1..], t)
  }

  // ---- Lessons --------------------------------------------------------------------------------

  function LessonsOf(modules: seq<Lesson>, docs: Docs, topic: string): seq<Lesson> {
    if modules == [] then []
    else
      var rest := LessonsOf(modules[1..], docs, topic);
      if PageOf(modules[0], docs) == topic then [modules[0]] + rest else rest
  }

  function Rank(m: Lesson, docs: Docs): int {
    if m.scope in docs.cite then docs.headingRank(docs.cite[m.scope]) else 0
  }

  /** Heading order, then length, then title. */
  predicate Precedes(a: Lesson, b: Lesson, docs: Docs) {
    if Rank(a, docs) != Rank(b, docs) then Rank(a, docs) < Rank(b, docs)
    else if a.stepCount != b.stepCount then a.stepCount < b.stepCount
    else docs.collation(a.title) < docs.collation(b.title)
  }

  /** By the place of its heading, then by length, then by title, `a` is taught no later than `b`. */
  ghost predicate TaughtNoLater(a: Lesson, b: Lesson, docs: Docs) {
    var x := if a.scope in docs.cite then docs.headingRank(docs.cite[a.scope]) else 0;
    var y := if b.scope in docs.cite then docs.headingRank(docs.cite[b.scope]) else 0;
    || x < y
    || (x == y && a.stepCount < b.stepCount)
    || (x == y && a.stepCount == b.stepCount && docs.collation(a.title) <= docs.collation(b.title))
  }

  lemma TaughtExactly(a: Lesson, b: Lesson, docs: Docs)
    ensures TaughtNoLater(a, b, docs) <==> !Precedes(b, a, docs)
  {}

  /** `a` may stand in front of `b`. */
  function ByTeaching(docs: Docs): Order<Lesson> { (a: Lesson, b: Lesson) => !Precedes(b, a, docs) }

  function SortLessons(s: seq<Lesson>, docs: Docs): seq<Lesson> { Sort(s, ByTeaching(docs)) }

  lemma LessonsSorted(s: seq<Lesson>, docs: Docs)
    ensures SortedBy(SortLessons(s, docs), ByTeaching(docs))
    ensures multiset(SortLessons(s, docs)) == multiset(s)
  {
    assert IsOrder(ByTeaching(docs));
    SortSorts(s, ByTeaching(docs));
    SortHolds(s, ByTeaching(docs));
  }

  lemma {:induction false} LessonsOfTopic(modules: seq<Lesson>, docs: Docs, topic: string, m: Lesson)
    ensures multiset(LessonsOf(modules, docs, topic))[m] == if PageOf(m, docs) == topic then multiset(modules)[m] else 0
  {
    if modules != [] {
      LessonsOfTopic(modules[1..], docs, topic, m);
      assert modules == [modules[0]] + modules[1..];
    }
  }

  /** The lessons, topic by topic. */
  function Laid(ordered: seq<string>, modules: seq<Lesson>, docs: Docs): seq<Lesson> {
    if ordered == [] then []
    else
      var n := |ordered| - 1;
      Laid(ordered[..n], modules, docs) + SortLessons(LessonsOf(modules, docs, ordered[n]), docs)
  }

  method ArrangeLessons(modules: seq<Lesson>, docs: Docs) returns (r: seq<Lesson>)
    ensures exists topics, ordered :: IsArrangement(topics, ordered, r, modules, docs)
  {
    var topics := Topics(modules, docs);
    var ordered := OrderTopics(topics, modules, docs);
    r := [];
    for k := 0 to |ordered|
      invariant r == Laid(ordered[..k], modules, docs)
    {
      assert ordered[..k + 1][..k] == ordered[..k];
      r := r + SortLessons(LessonsOf(modules, docs, ordered[k]), docs);
    }
    assert ordered[..|ordered|] == ordered;
    assert IsArrangement(topics, ordered, r, modules, docs);
  }

  ghost predicate IsArrangement(topics: seq<string>, ordered: seq<string>, r: seq<Lesson>, modules: seq<Lesson>, docs: Docs) {
    && (forall t :: t in topics <==> IsTopic(modules, docs, t))
    && IsGreedyOrder(ordered, topics, modules, docs)
    && r == Laid(ordered, modules, docs)
  }

  lemma {:induction false} LaidCounts(ordered: seq<string>, modules: seq<Lesson>, docs: Docs, m: Lesson)
    requires NoRepeats(ordered)
    ensures multiset(Laid(ordered, modules, docs))[m] == if PageOf(m, docs) in ordered then multiset(modules)[m] else 0
  {
    hide PageOf, SortLessons, LessonsOf, ByTeaching;
    if ordered != [] {
      var n := |ordered| - 1;
      LaidCounts(ordered[..n], modules, docs, m);
      LessonsSorted(LessonsOf(modules, docs, ordered[n]), docs);
      LessonsOfTopic(modules, docs, ordered[n], m);
      assert ordered == ordered[..n] + [ordered[n]];
    }
  }

  /** Two lessons of the arrangement: of one topic in teaching order, or of topics in the topics' order. */
  predicate InPlace(ordered: seq<string>, a: Lesson, b: Lesson, docs: Docs) {
    var p, q := PageOf(a, docs), PageOf(b, docs);
    && p in ordered && q in ordered
    && (if p == q then !Precedes(b, a, docs) else exists i, j :: 0 <= i < j < |ordered| && ordered[i] == p && ordered[j] == q)
  }

  lemma SortedOfTopic(modules: seq<Lesson>, docs: Docs, topic: string, m: Lesson)
    requires m in SortLessons(LessonsOf(modules, docs, topic), docs)
    ensures PageOf(m, docs) == topic
  {
    LessonsSorted(LessonsOf(modules, docs, topic), docs);
    assert m in multiset(SortLessons(LessonsOf(modules, docs, topic), docs));
    LessonsOfTopic(modules, docs, topic, m);
  }

  lemma {:induction false} LaidMembers(ordered: seq<string>, modules: seq<Lesson>, docs: Docs, m: Lesson)
    requires m in Laid(ordered, modules, docs)
    ensures PageOf(m, docs) in ordered
  {
    var n := |ordered| - 1;
    var front := Laid(ordered[..n], modules, docs);
    if m in front {
      LaidMembers(ordered[..n], modules, docs, m);
    } else {
      SortedOfTopic(modules, docs, ordered[n], m);
    }
  }

  lemma {:induction false} LaidInPlace(ordered: seq<string>, modules: seq<Lesson>, docs: Docs, i: nat, j: nat)
    requires NoRepeats(ordered) && i < j < |Laid(ordered, modules, docs)|
    ensures InPlace(ordered, Laid(ordered, modules, docs)[i], Laid(ordered, modules, docs)[j], docs)
  {
    hide PageOf, Precedes, SortLessons, LessonsOf;
    var n := |ordered| - 1;
    var front, block := Laid(ordered[..n], modules, docs), SortLessons(LessonsOf(modules, docs, ordered[n]), docs);
    var all := Laid(ordered, modules, docs);
    if j < |front| {
      LaidInPlace(ordered[..n], modules, docs, i, j);
      InPlaceGrows(ordered, n, all[i], all[j], docs);
    } else {
      SortedOfTopic(modules, docs, ordered[n], all[j]);
      if i < |front| {
        LaidMembers(ordered[..n], modules, docs, all[i]);
        var k :| 0 <= k < n && ordered[..n][k] == PageOf(all[i], docs);
        assert ordered[k] == PageOf(all[i], docs);
      } else {
        SortedOfTopic(modules, docs, ordered[n], all[i]);
        LessonsSorted(LessonsOf(modules, docs, ordered[n]), docs);
        assert all[i] == block[i - |front|] && all[j] == block[j - |front|];
      }
    }
  }

  lemma InPlaceGrows(ordered: seq<string>, n: nat, a: Lesson, b: Lesson, docs: Docs)
    requires n < |ordered| && InPlace(ordered[..n], a, b, docs)
    ensures InPlace(ordered, a, b, docs)
  {
    var front, p, q := ordered[..n], PageOf(a, docs), PageOf(b, docs);
    if p != q {
      var i, j :| 0 <= i < j < |front| && front[i] == p && front[j] == q;
      assert ordered[i] == p && ordered[j] == q;
    }
  }

  // ---- What an arrangement is ---------------------------------------------------------------------

  /** Every lesson stands behind the lessons of the topics its own topic leans on. */
  predicate Teaches(r: seq<Lesson>, docs: Docs) {
    forall i, j :: 0 <= i < |r| && 0 <= j < |r| && Leans(docs)(PageOf(r[i], docs), PageOf(r[j], docs)) ==> j < i
  }

  /** The topics of the section lean on each other without a cycle. */
  ghost predicate Settled(modules: seq<Lesson>, docs: Docs) {
    Graphs.Acyclic(Leans(docs), Pages(modules, docs))
  }

  ghost function Pages(modules: seq<Lesson>, docs: Docs): set<string> {
    set k | 0 <= k < |modules| :: PageOf(modules[k], docs)
  }

  /** Every lesson stands behind the lessons of each page that the docs have in front of its own. */
  ghost predicate IsTaught(r: seq<Lesson>, docs: Docs) {
    forall i, j, p, q ::
      (0 <= i < |r| && 0 <= j < |r| && IsOn(r[i], p, docs) && IsOn(r[j], q, docs) && p in docs.deps && q in docs.deps[p]) ==> j < i
  }

  /** Pages of the section, each with the next in front of it, that end where they started. */
  ghost predicate IsRing(modules: seq<Lesson>, docs: Docs, ring: seq<string>) {
    && |ring| >= 2 && ring[0] == ring[|ring| - 1]
    && (forall k :: 0 <= k < |ring| ==> exists m :: m in modules && IsOn(m, ring[k], docs))
    && forall k :: 0 <= k < |ring| - 1 ==> ring[k] in docs.deps && ring[k + 1] in docs.deps[ring[k]]
  }

  lemma OnExactly(m: Lesson, page: string, docs: Docs)
    ensures IsOn(m, page, docs) <==> PageOf(m, docs) == page
  {}

  lemma TaughtIsTeaching(r: seq<Lesson>, docs: Docs)
    ensures IsTaught(r, docs) <==> Teaches(r, docs)
  {
    hide IsOn, PageOf;
    forall m, page: string ensures IsOn(m, page, docs) <==> PageOf(m, docs) == page { OnExactly(m, page, docs); }
    if IsTaught(r, docs) {
      forall i, j | 0 <= i < |r| && 0 <= j < |r| && Leans(docs)(PageOf(r[i], docs), PageOf(r[j], docs)) ensures j < i {
        assert IsOn(r[i], PageOf(r[i], docs), docs) && IsOn(r[j], PageOf(r[j], docs), docs);
      }
    }
  }

  lemma RingExactly(modules: seq<Lesson>, docs: Docs, ring: seq<string>)
    ensures IsRing(modules, docs, ring) <==>
      Graphs.IsCycle(Leans(docs), Pages(modules, docs), ring)
  {
    hide IsOn, PageOf, Pages;
    var nodes := Pages(modules, docs);
    forall page: string ensures page in nodes <==> exists m :: m in modules && IsOn(m, page, docs) { PagesExactly(modules, docs, page); }
    WalkExactly(docs, ring);
    assert (forall x :: x in ring ==> x in nodes) <==> forall k :: 0 <= k < |ring| ==> ring[k] in nodes;
  }

  lemma WalkExactly(docs: Docs, p: seq<string>)
    ensures Graphs.IsWalk(Leans(docs), p) <==> forall k :: 0 <= k < |p| - 1 ==> p[k] in docs.deps && p[k + 1] in docs.deps[p[k]]
  {
    var edge := Leans(docs);
    if Graphs.IsWalk(edge, p) {
      forall k | 0 <= k < |p| - 1 ensures p[k] in docs.deps && p[k + 1] in docs.deps[p[k]] { assert edge(p[k], p[k + 1]); }
    }
    if forall k :: 0 <= k < |p| - 1 ==> p[k] in docs.deps && p[k + 1] in docs.deps[p[k]] {
      forall k | 0 <= k < |p| - 1 ensures edge(p[k], p[k + 1]) {}
    }
  }

  lemma PagesExactly(modules: seq<Lesson>, docs: Docs, page: string)
    ensures page in Pages(modules, docs) <==> exists m :: m in modules && IsOn(m, page, docs)
  {
    hide IsOn, PageOf;
    forall m { OnExactly(m, page, docs); }
    if page in Pages(modules, docs) {
      var k :| 0 <= k < |modules| && PageOf(modules[k], docs) == page;
      assert modules[k] in modules;
    }
  }

  lemma SettledExactly(modules: seq<Lesson>, docs: Docs)
    ensures Settled(modules, docs) <==> forall ring :: !IsRing(modules, docs, ring)
  {
    hide IsRing, Pages;
    forall ring: seq<string> ensures IsRing(modules, docs, ring) <==> Graphs.IsCycle(Leans(docs), Pages(modules, docs), ring) {
      RingExactly(modules, docs, ring);
    }
  }

  lemma ArrangementKeepsLessons(topics: seq<string>, ordered: seq<string>, r: seq<Lesson>, modules: seq<Lesson>, docs: Docs)
    requires IsArrangement(topics, ordered, r, modules, docs)
    ensures multiset(r) == multiset(modules)
  {
    forall m ensures multiset(r)[m] == multiset(modules)[m] {
      LaidCounts(ordered, modules, docs, m);
      if m in modules { assert IsTopic(modules, docs, PageOf(m, docs)); }
    }
  }

  lemma ArrangementIsOrdered(topics: seq<string>, ordered: seq<string>, r: seq<Lesson>, modules: seq<Lesson>, docs: Docs)
    requires IsArrangement(topics, ordered, r, modules, docs)
    ensures NoRepeats(ordered) && r == Laid(ordered, modules, docs)
  {}

  lemma ArrangementGroups(topics: seq<string>, ordered: seq<string>, r: seq<Lesson>, modules: seq<Lesson>, docs: Docs,
                          i: nat, j: nat)
    requires IsArrangement(topics, ordered, r, modules, docs) && i < j < |r|
    ensures PageOf(r[i], docs) == PageOf(r[j], docs) ==> !Precedes(r[j], r[i], docs)
    ensures forall k :: i < k < j && PageOf(r[i], docs) == PageOf(r[j], docs) ==> PageOf(r[k], docs) == PageOf(r[i], docs)
  {
    hide PageOf, Precedes, IsNext, IsGreedyOrder;
    ArrangementIsOrdered(topics, ordered, r, modules, docs);
    LaidInPlace(ordered, modules, docs, i, j);
    forall k | i < k < j && PageOf(r[i], docs) == PageOf(r[j], docs) ensures PageOf(r[k], docs) == PageOf(r[i], docs) {
      LaidInPlace(ordered, modules, docs, i, k);
      LaidInPlace(ordered, modules, docs, k, j);
    }
  }

  lemma SettledTeaches(topics: seq<string>, ordered: seq<string>, r: seq<Lesson>, modules: seq<Lesson>, docs: Docs)
    requires IsArrangement(topics, ordered, r, modules, docs) && Settled(modules, docs)
    ensures Teaches(r, docs)
  {
    assert (set t | t in topics) == Pages(modules, docs);
    AcyclicIsRespected(ordered, topics, modules, docs);
    forall i, j | 0 <= i < |r| && 0 <= j < |r| && Leans(docs)(PageOf(r[i], docs), PageOf(r[j], docs)) ensures j < i {
      if i < j {
        LaidInPlace(ordered, modules, docs, i, j);
      } else if i == j {
        LaidMembers(ordered, modules, docs, r[i]);
      }
    }
  }

  lemma TeachesSettled(topics: seq<string>, ordered: seq<string>, r: seq<Lesson>, modules: seq<Lesson>, docs: Docs)
    requires IsArrangement(topics, ordered, r, modules, docs) && Teaches(r, docs)
    ensures Settled(modules, docs)
  {
    hide PageOf, Precedes, Laid, IsNext, Leans;
    ArrangementKeepsLessons(topics, ordered, r, modules, docs);
    forall i, j | 0 <= i < |ordered| && 0 <= j < |ordered| && Leans(docs)(ordered[i], ordered[j]) ensures j < i {
      var a := LessonAt(ordered[i], r, modules, docs);
      var b := LessonAt(ordered[j], r, modules, docs);
      assert b < a;
      LaidInPlace(ordered, modules, docs, b, a);
    }
    RespectedIsAcyclic(ordered, topics, docs);
    assert (set t | t in topics) == Pages(modules, docs);
  }

  lemma LessonAt(topic: string, r: seq<Lesson>, modules: seq<Lesson>, docs: Docs) returns (k: nat)
    requires multiset(r) == multiset(modules) && IsTopic(modules, docs, topic)
    ensures k < |r| && PageOf(r[k], docs) == topic
  {
    var n :| 0 <= n < |modules| && PageOf(modules[n], docs) == topic;
    assert modules[n] in multiset(r);
    k :| 0 <= k < |r| && r[k] == modules[n];
  }

  /**
   The section's lessons, each once, topic by topic in teaching order; and every topic
   stands behind the topics it leans on exactly when they lean without a cycle.
   */
  method OrderWithin(modules: seq<Lesson>, docs: Docs) returns (r: seq<Lesson>)
    ensures multiset(r) == multiset(modules)
    ensures forall i, j, page :: 0 <= i < j < |r| && IsOn(r[i], page, docs) && IsOn(r[j], page, docs) ==> TaughtNoLater(r[i], r[j], docs)
    ensures forall i, k, j, page ::
      0 <= i < k < j < |r| && IsOn(r[i], page, docs) && IsOn(r[j], page, docs) ==> IsOn(r[k], page, docs)
    ensures IsTaught(r, docs) <==> forall ring :: !IsRing(modules, docs, ring)
  {
    hide IsOn, TaughtNoLater, Precedes, IsRing, IsTaught, Teaches, Settled, IsArrangement;
    r := ArrangeLessons(modules, docs);
    forall m, page: string ensures IsOn(m, page, docs) <==> PageOf(m, docs) == page { OnExactly(m, page, docs); }
    forall a, b ensures TaughtNoLater(a, b, docs) <==> !Precedes(b, a, docs) { TaughtExactly(a, b, docs); }
    TaughtIsTeaching(r, docs);
    SettledExactly(modules, docs);
    ghost var topics, ordered :| IsArrangement(topics, ordered, r, modules, docs);
    ArrangementKeepsLessons(topics, ordered, r, modules, docs);
    forall i, j | 0 <= i < j < |r| { ArrangementGroups(topics, ordered, r, modules, docs, i, j); }
    if Settled(modules, docs) { SettledTeaches(topics, ordered, r, modules, docs); }
    if Teaches(r, docs) { TeachesSettled(topics, ordered, r, modules, docs); }
  }

  // ---- Which topics lean on which -----------------------------------------------------------------

  /** What the docs say of their pages: the concept each owns, and how many sentences of a page reach for one. */
  datatype Prose = Prose(concept: map<string, string>, mentions: (string, string) -> nat)

  /** `a` reaches for `b`'s concept at least twice, and more than twice as often as `b` reaches back. */
  predicate LeansOnPage(a: string, b: string, prose: Prose) {
    && a != b && a in prose.concept && b in prose.concept
    && (if prose.concept[a] == prose.concept[b] then b + "/" <= a
        else
          var forward, back := prose.mentions(a, prose.concept[b]), prose.mentions(b, prose.concept[a]);
          forward >= 2 && forward > back * 2)
  }

  method LeansOn(pages: seq<string>, prose: Prose) returns (deps: map<string, set<string>>)
    ensures forall a :: a in deps <==> a in pages
    ensures forall a, b :: a in deps ==> (b in deps[a] <==> b in pages && LeansOnPage(a, b, prose))
  {
    deps := map[];
    for k := 0 to |pages|
      invariant forall a :: a in deps <==> a in pages[..k]
      invariant forall a, b :: a in deps ==> (b in deps[a] <==> b in pages && LeansOnPage(a, b, prose))
    {
      var on: set<string> := {};
      for j := 0 to |pages|
        invariant forall b :: b in on <==> b in pages[..j] && LeansOnPage(pages[k], b, prose)
      {
        assert pages[..j + 1] == pages[..j] + [pages[j]];
        if LeansOnPage(pages[k], pages[j], prose) { on := on + {pages[j]}; }
      }
      assert pages[..|pages|] == pages;
      assert pages[..k + 1] == pages[..k] + [pages[k]];
      deps := deps[pages[k] := on];
    }
    assert pages[..|pages|] == pages;
  }

  /** No two pages lean on each other. */
  lemma LeaningIsOneWay(a: string, b: string, prose: Prose)
    requires LeansOnPage(a, b, prose)
    ensures !LeansOnPage(b, a, prose)
  {
    if prose.concept[a] == prose.concept[b] { assert |a| > |b|; }
  }

  lemma OnlyOneStep(a: string, b: string, c: string, x: string, y: string, prose: Prose)
    requires {a, b, c} <= {x, y} && LeansOnPage(a, b, prose)
    ensures !LeansOnPage(b, c, prose)
  {
    assert a in {x, y} && b in {x, y} && c in {x, y};
    LeaningIsOneWay(a, b, prose);
  }

  /** So a section of two topics always has an order that respects its leanings. */
  lemma TwoTopicsSettle(x: string, y: string, prose: Prose)
    ensures Graphs.Acyclic((a, b) => LeansOnPage(a, b, prose), {x, y})
  {
    var edge := (a, b) => LeansOnPage(a, b, prose);
    forall p ensures !Graphs.IsCycle(edge, {x, y}, p) {
      if |p| >= 3 && {p[0], p[1], p[2]} <= {x, y} && edge(p[0], p[1]) {
        OnlyOneStep(p[0], p[1], p[2], x, y, prose);
        assert !edge(p[1], p[2]);
      }
    }
  }

  /** Three topics may lean on each other in a ring. */
  lemma ThreeTopicsMayCircle()
    ensures exists prose: Prose :: LeansOnPage("a", "b", prose) && LeansOnPage("b", "c", prose) && LeansOnPage("c", "a", prose)
  {
    var ring := (page: string, concept: string) =>
      if (page == "a" && concept == "y") || (page == "b" && concept == "z") || (page == "c" && concept == "x") then 2 else 0;
    var prose := Prose(map["a" := "x", "b" := "y", "c" := "z"], ring);
    assert "a" != "b" && "b" != "c" && "a" != "c" && "x" != "y" && "y" != "z" && "x" != "z";
    assert LeansOnPage("a", "b", prose) && LeansOnPage("b", "c", prose) && LeansOnPage("c", "a", prose);
  }
}
