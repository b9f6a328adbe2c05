/**
 What the normalized text of an owner in scripts/release-safety-config-diff.ts replaces, by
 tokens: the names and defaults of its usages, from right to left.
 */
module OwnerHoles {
  import opened Options
  import opened JsText
  import opened Sequences
  import opened Sorting
  import opened OwnerText
  import opened SourceWords
  import opened ConfigUsages
  import L = Lexer

  // ---- The holes of an owner --------------------------------------------------------------------

  /** A stretch of tokens that is replaced by a marker. */
  datatype Hole = Hole(first: nat, last: nat, marker: string)

  /** What one usage reports to an owner that holds its name. */
  function HolesOfUsage(u: TokenUsage): seq<Hole> {
    [Hole(u.name, u.name, ENV)]
    + (if u.default.None? then [] else [Hole(u.default.value.first, u.default.value.last, DEFAULT)])
  }

  /** What the usages report to an owner, in their order. */
  function HolesOf(usages: seq<TokenUsage>, o: Owner): seq<Hole> {
    if usages == [] then []
    else
      var u := usages[|usages| - 1];
      HolesOf(usages[..|usages| - 1], o) + (if o.first <= u.name < o.stop then HolesOfUsage(u) else [])
  }

  /** The hole's tokens are there, from the owner's first one on. */
  predicate LiesBehind(tokens: Tokens, o: Owner, h: Hole) { o.first <= h.first <= h.last < |tokens| }

  predicate AllBehind(tokens: Tokens, o: Owner, hs: seq<Hole>) { forall h :: h in hs ==> LiesBehind(tokens, o, h) }

  lemma {:induction false} HolesLieBehind(tokens: Tokens, usages: seq<TokenUsage>, o: Owner)
    requires forall u :: u in usages ==> UsageInList(tokens, u)
    ensures AllBehind(tokens, o, HolesOf(usages, o))
  {
    if usages != [] {
      assert UsageInList(tokens, usages[|usages| - 1]);
      HolesLieBehind(tokens, usages[..|usages| - 1], o);
    }
  }

  // ---- From tokens to positions -----------------------------------------------------------------

  /** Where an owner's text stands. */
  function OwnerExtent(tokens: Tokens, o: Owner): Extent
    requires IsOwner(tokens, o)
  {
    Extent(tokens[o.first].start, if o.stop < |tokens| then tokens[o.stop].start else tokens[|tokens| - 1].end)
  }

  function UsageExtent(tokens: Tokens, u: TokenUsage): (r: Usage)
    requires UsageInList(tokens, u)
  {
    Usage(Extent(tokens[u.name].start, tokens[u.name].end),
      if u.default.None? then None
      else Some(Extent(tokens[u.default.value.first].start, tokens[u.default.value.last].end)))
  }

  function UsageExtents(tokens: Tokens, usages: seq<TokenUsage>): (r: seq<Usage>)
    requires forall u :: u in usages ==> UsageInList(tokens, u)
    ensures |r| == |usages|
  {
    seq(|usages|, k requires 0 <= k < |usages| => UsageExtent(tokens, usages[k]))
  }

  /** The replacement that a hole asks for, in a text that starts at `from`. */
  function Place(tokens: Tokens, h: Hole, from: nat): Replacement {
    if h.first <= h.last < |tokens| && from <= tokens[h.first].start <= tokens[h.last].end
    then Replacement(tokens[h.first].start - from, tokens[h.last].end - from, h.marker)
    else Replacement(0, 0, h.marker)
  }

  function Placed(tokens: Tokens, hs: seq<Hole>, from: nat): (r: seq<Replacement>)
    ensures |r| == |hs|
  {
    seq(|hs|, k requires 0 <= k < |hs| => Place(tokens, hs[k], from))
  }

  lemma PlacedJoins(tokens: Tokens, a: seq<Hole>, b: seq<Hole>, from: nat)
    ensures Placed(tokens, a + b, from) == Placed(tokens, a, from) + Placed(tokens, b, from)
  {}

  lemma StartsGrow(tokens: Tokens, i: nat, j: nat)
    requires Ordered(tokens) && i <= j < |tokens|
    ensures tokens[i].start <= tokens[j].start < tokens[j].end && tokens[i].start < tokens[i].end
    ensures i < j ==> tokens[i].end <= tokens[j].start
  {}

  lemma UsageWellPlaced(tokens: Tokens, u: TokenUsage)
    requires Ordered(tokens) && UsageInList(tokens, u)
    ensures WellPlaced(UsageExtent(tokens, u))
  {
    hide Ordered;
    StartsGrow(tokens, u.name, u.name);
    if u.default.Some? {
      StartsGrow(tokens, u.name, u.default.value.first);
      StartsGrow(tokens, u.default.value.first, u.default.value.last);
    }
  }

  lemma UsagesWellPlaced(tokens: Tokens, usages: seq<TokenUsage>)
    requires Ordered(tokens) && forall u :: u in usages ==> UsageInList(tokens, u)
    ensures forall k :: 0 <= k < |usages| ==> WellPlaced(UsageExtents(tokens, usages)[k])
  {
    hide Ordered, WellPlaced, UsageInList;
    forall k | 0 <= k < |usages| ensures WellPlaced(UsageExtents(tokens, usages)[k]) {
      assert UsageInList(tokens, usages[k]);
      UsageWellPlaced(tokens, usages[k]);
    }
  }

  /** A name lies within an owner's text exactly when its token is one of the owner's. */
  lemma WithinByToken(tokens: Tokens, o: Owner, u: TokenUsage)
    requires Ordered(tokens) && IsOwner(tokens, o) && UsageInList(tokens, u)
    ensures Within(OwnerExtent(tokens, o), UsageExtent(tokens, u)) <==> o.first <= u.name < o.stop
  {
    hide Ordered;
    if u.name < o.first { StartsGrow(tokens, u.name, o.first); } else { StartsGrow(tokens, o.first, u.name); }
    if o.stop < |tokens| {
      if u.name < o.stop { StartsGrow(tokens, u.name, o.stop); } else { StartsGrow(tokens, o.stop, u.name); }
    } else {
      StartsGrow(tokens, u.name, |tokens| - 1);
    }
  }

  lemma PlaceOfUsage(tokens: Tokens, o: Owner, u: TokenUsage)
    requires Ordered(tokens) && IsOwner(tokens, o) && UsageInList(tokens, u) && o.first <= u.name
    ensures WellPlaced(UsageExtent(tokens, u)) && tokens[o.first].start <= tokens[u.name].start
    ensures var x, from := UsageExtent(tokens, u), tokens[o.first].start;
      Placed(tokens, HolesOfUsage(u), from) ==
        [Replacing(x.name, from, ENV)] + (if x.default.None? then [] else [Replacing(x.default.value, from, DEFAULT)])
  {
    hide Ordered;
    UsageWellPlaced(tokens, u);
    StartsGrow(tokens, o.first, u.name);
    StartsGrow(tokens, u.name, u.name);
    if u.default.Some? {
      StartsGrow(tokens, o.first, u.default.value.first);
      StartsGrow(tokens, u.default.value.first, u.default.value.last);
    }
  }

  /** What the source replaces in an owner's text is the owner's holes, placed. */
  lemma {:induction false} ReplacementsArePlaced(tokens: Tokens, usages: seq<TokenUsage>, o: Owner)
    requires Ordered(tokens) && IsOwner(tokens, o) && forall u :: u in usages ==> UsageInList(tokens, u)
    ensures forall k :: 0 <= k < |usages| ==> WellPlaced(UsageExtents(tokens, usages)[k])
    ensures Replacements(OwnerExtent(tokens, o), UsageExtents(tokens, usages))
      == Placed(tokens, HolesOf(usages, o), OwnerExtent(tokens, o).start)
  {
    hide Ordered, WellPlaced, IsOwner, UsageInList, Place, Within, UsageExtent;
    UsagesWellPlaced(tokens, usages);
    if usages != [] {
      var n := |usages| - 1;
      var u := usages[n];
      assert UsageInList(tokens, u);
      ReplacementsArePlaced(tokens, usages[..n], o);
      WithinByToken(tokens, o, u);
      assert UsageExtents(tokens, usages)[..n] == UsageExtents(tokens, usages[..n]);
      assert UsageExtents(tokens, usages)[n] == UsageExtent(tokens, u);
      var from := OwnerExtent(tokens, o).start;
      if o.first <= u.name < o.stop {
        PlaceOfUsage(tokens, o, u);
        PlacedJoins(tokens, HolesOf(usages[..n], o), HolesOfUsage(u), from);
      } else {
        PlacedJoins(tokens, HolesOf(usages[..n], o), [], from);
      }
    }
  }

  // ---- Sorted holes -------------------------------------------------------------------------------

  function ByFallingFirst(): Order<Hole> { (a: Hole, b: Hole) => b.first <= a.first }

  lemma OrdersAgree(tokens: Tokens, o: Owner, a: Hole, b: Hole)
    requires Ordered(tokens) && LiesBehind(tokens, o, a) && LiesBehind(tokens, o, b)
    ensures var from := tokens[o.first].start;
      ByFallingStart()(Place(tokens, a, from), Place(tokens, b, from)) <==> ByFallingFirst()(a, b)
  {
    hide Ordered;
    StartsGrow(tokens, o.first, a.first);
    StartsGrow(tokens, o.first, b.first);
    StartsGrow(tokens, a.first, a.last);
    StartsGrow(tokens, b.first, b.last);
    if a.first <= b.first { StartsGrow(tokens, a.first, b.first); } else { StartsGrow(tokens, b.first, a.first); }
  }

  lemma {:induction false} InsertPlaced(tokens: Tokens, o: Owner, h: Hole, hs: seq<Hole>)
    requires Ordered(tokens) && LiesBehind(tokens, o, h) && AllBehind(tokens, o, hs)
    ensures var from := tokens[o.first].start;
      Insert(Place(tokens, h, from), Placed(tokens, hs, from), ByFallingStart()) == Placed(tokens, Insert(h, hs, ByFallingFirst()), from)
  {
    hide Ordered, Place, ByFallingStart, ByFallingFirst;
    var from := tokens[o.first].start;
    if hs == [] {
      PlacedJoins(tokens, [h], hs, from);
    } else {
      assert LiesBehind(tokens, o, hs[0]);
      OrdersAgree(tokens, o, h, hs[0]);
      assert Placed(tokens, hs, from)[0] == Place(tokens, hs[0], from);
      assert Placed(tokens, hs, from)[1..] == Placed(tokens, hs[1..], from);
      if ByFallingFirst()(h, hs[0]) {
        PlacedJoins(tokens, [h], hs, from);
      } else {
        InsertPlaced(tokens, o, h, hs[1..]);
        PlacedJoins(tokens, [hs[0]], Insert(h, hs[1..], ByFallingFirst()), from);
      }
    }
  }

  function Sorted(hs: seq<Hole>): seq<Hole> { Sort(hs, ByFallingFirst()) }

  /** Sorting the replacements by position is sorting the holes by their tokens. */
  lemma {:induction false} SortPlaced(tokens: Tokens, o: Owner, hs: seq<Hole>)
    requires Ordered(tokens) && o.first < |tokens| && AllBehind(tokens, o, hs)
    ensures var from := tokens[o.first].start; SortDescending(Placed(tokens, hs, from)) == Placed(tokens, Sorted(hs), from)
  {
    hide Ordered, Place, ByFallingStart, ByFallingFirst, Insert;
    var from := tokens[o.first].start;
    if hs == [] {
      assert Placed(tokens, hs, from) == [];
    } else {
      assert Placed(tokens, hs, from)[0] == Place(tokens, hs[0], from);
      assert Placed(tokens, hs, from)[1..] == Placed(tokens, hs[1..], from);
      SortPlaced(tokens, o, hs[1..]);
      SortHolds(hs[1..], ByFallingFirst());
      assert AllBehind(tokens, o, Sorted(hs[1..]));
      InsertPlaced(tokens, o, hs[0], Sorted(hs[1..]));
    }
  }

  lemma SortedHoles(hs: seq<Hole>)
    ensures (forall h :: h in Sorted(hs) <==> h in hs) && (NoRepeats(hs) <==> NoRepeats(Sorted(hs)))
    ensures forall i, j :: 0 <= i < j < |Sorted(hs)| ==> Sorted(hs)[j].first <= Sorted(hs)[i].first
  {
    var ss := Sorted(hs);
    SortHolds(hs, ByFallingFirst());
    NoRepeatsCounted(hs);
    NoRepeatsCounted(ss);
    assert IsOrder(ByFallingFirst());
    SortSorts(hs, ByFallingFirst());
    forall i, j | 0 <= i < j < |ss| ensures ss[j].first <= ss[i].first { assert ByFallingFirst()(ss[i], ss[j]); }
  }

  // ---- Holes are apart ----------------------------------------------------------------------------

  /** What stands in front of a name. */
  predicate IntroducesName(t: L.Token) { IsMark(t, {".", "[", "("}) }

  /** What stands in front of a default. */
  predicate IntroducesDefault(t: L.Token) { OffersDefault(t) || IsMark(t, {","}) }

  /** A name is one token behind a mark that introduces it; a default is a literal, with or without a sign, behind one that does. */
  predicate IsSound(tokens: Tokens, h: Hole) {
    && 0 < h.first <= h.last < |tokens|
    && if h.marker == ENV then h.first == h.last && IntroducesName(tokens[h.first - 1])
       else
         && h.marker == DEFAULT && IntroducesDefault(tokens[h.first - 1])
         && (|| (h.last == h.first && IsValue(tokens[h.first]))
             || (h.last == h.first + 1 && IsSign(tokens[h.first]) && tokens[h.last].kind == L.Number))
  }

  predicate AllSound(tokens: Tokens, hs: seq<Hole>) { forall h :: h in hs ==> IsSound(tokens, h) }

  /** Two holes are the same or have no token in common. */
  lemma HolesApart(tokens: Tokens, a: Hole, b: Hole)
    requires IsSound(tokens, a) && IsSound(tokens, b)
    ensures a == b || a.last < b.first || b.last < a.first
  {}

  lemma LiteralIsSound(tokens: Tokens, operator: nat)
    requires operator < |tokens| && IntroducesDefault(tokens[operator]) && LiteralDefault(tokens, operator).Some?
    ensures var s := LiteralDefault(tokens, operator).value; IsSound(tokens, Hole(s.first, s.last, DEFAULT))
  {
    assert |ENV| != |DEFAULT|;
  }

  lemma {:induction false} FoundIsSound(tokens: Tokens, index: nat, limit: nat, depth: int)
    requires DefaultFrom(tokens, index, limit, depth).Some?
    ensures var s := DefaultFrom(tokens, index, limit, depth).value; IsSound(tokens, Hole(s.first, s.last, DEFAULT))
    decreases limit - index
  {
    hide IsSound, LiteralDefault;
    if OffersDefault(tokens[index]) {
      LiteralIsSound(tokens, index);
    } else {
      FoundIsSound(tokens, index + 1, limit, depth);
    }
  }

  lemma DefaultIsSound(tokens: Tokens, r: Reference)
    requires InList(tokens, r) && DefaultOf(tokens, r).Some?
    ensures var s := DefaultOf(tokens, r).value; IsSound(tokens, Hole(s.first, s.last, DEFAULT))
  {
    hide IsSound, LiteralDefault, DefaultFrom;
    if r.helper && HelperArgumentDefault(tokens, r.name).Some? {
      LiteralIsSound(tokens, r.name + 1);
    } else {
      FoundIsSound(tokens, r.end + 1, r.end + 12, tokens[r.end].depth);
    }
  }

  predicate NameIntroduced(tokens: Tokens, r: Reference) {
    && InList(tokens, r) && 0 < r.name && IntroducesName(tokens[r.name - 1])
    && r.start + (if IsMark(tokens[r.name - 1], {"("}) then 2 else 4) == r.name
  }

  lemma ReferenceIntroduced(tokens: Tokens, i: nat)
    ensures forall r :: r in EnvironmentReference(tokens, i) + HelperReference(tokens, i) ==> NameIntroduced(tokens, r) && r.start == i
  {
    hide IsHelper, IsLiteralName, IsUpperName;
  }

  lemma {:induction false} NamesIntroduced(tokens: Tokens, n: nat)
    ensures forall r :: r in References(tokens, n) ==> NameIntroduced(tokens, r) && r.start < n
  {
    hide EnvironmentReference, HelperReference, NameIntroduced;
    if n > 0 {
      NamesIntroduced(tokens, n - 1);
      ReferenceIntroduced(tokens, n - 1);
    }
  }

  /** No name belongs to two references. */
  predicate NamesDiffer(references: seq<Reference>) {
    forall i, j :: 0 <= i < j < |references| ==> references[i].name != references[j].name
  }

  lemma {:induction false} ReferencesDiffer(tokens: Tokens, n: nat)
    ensures NamesDiffer(References(tokens, n))
  {
    hide EnvironmentReference, HelperReference;
    if n > 0 {
      var front, more := References(tokens, n - 1), EnvironmentReference(tokens, n - 1) + HelperReference(tokens, n - 1);
      ReferencesDiffer(tokens, n - 1);
      NamesIntroduced(tokens, n - 1);
      NamesIntroduced(tokens, n);
      OneReference(tokens, n - 1);
      forall i | 0 <= i < |front| && more != [] ensures front[i].name != more[0].name {
        assert NameIntroduced(tokens, front[i]) && NameIntroduced(tokens, References(tokens, n)[|front|]);
      }
    }
  }

  lemma OneReference(tokens: Tokens, i: nat)
    ensures var more := EnvironmentReference(tokens, i) + HelperReference(tokens, i);
      |more| <= 1 && forall r :: r in more ==> r.start == i
  {}

  lemma {:induction false} SoundUsages(tokens: Tokens, references: seq<Reference>, o: Owner)
    requires forall r :: r in references ==> NameIntroduced(tokens, r)
    ensures (forall r :: r in references ==> InList(tokens, r)) && AllSound(tokens, HolesOf(Usages(tokens, references), o))
  {
    hide IsSound, DefaultOf, OwnerOf;
    if references != [] {
      var n := |references| - 1;
      var r := references[n];
      assert NameIntroduced(tokens, r);
      SoundUsages(tokens, references[..n], o);
      NameIsSound(tokens, r);
      if DefaultOf(tokens, r).Some? { DefaultIsSound(tokens, r); }
    }
  }

  lemma NameIsSound(tokens: Tokens, r: Reference)
    requires NameIntroduced(tokens, r)
    ensures IsSound(tokens, Hole(r.name, r.name, ENV))
  {}

  /** The holes of an owner. */
  function HolesIn(tokens: Tokens, o: Owner): seq<Hole> { HolesOf(UsagesIn(tokens), o) }

  /** Every hole of an owner is a name or a default of its kind. */
  lemma OwnerHolesSound(tokens: Tokens, o: Owner)
    ensures AllSound(tokens, HolesIn(tokens, o)) && AllBehind(tokens, o, HolesIn(tokens, o))
  {
    hide IsSound, NameIntroduced;
    NamesIntroduced(tokens, |tokens|);
    ReferencesInList(tokens, |tokens|);
    SoundUsages(tokens, References(tokens, |tokens|), o);
    HolesLieBehind(tokens, UsagesIn(tokens), o);
  }
}
