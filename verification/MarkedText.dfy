/**
 The normalized text of an owner in a tokenized source, from
 scripts/release-safety-config-diff.ts: its words with a marker for every name and default,
 when each is replaced once.
 */
module MarkedText {
  import opened Options
  import opened JsText
  import opened Sequences
  import opened Sorting
  import opened OwnerText
  import opened SourceWords
  import opened ConfigUsages
  import opened OwnerHoles
  import L = Lexer

  // ---- The text with its holes marked ---------------------------------------------------------------

  predicate Holds(h: Hole, k: nat) { h.first <= k <= h.last }

  predicate InHole(hs: seq<Hole>, k: nat) { exists h :: h in hs && Holds(h, k) }

  /** In a hole and not its first token, so that the gap in front of it is replaced as well. */
  predicate IsInner(hs: seq<Hole>, k: nat) { exists h :: h in hs && Holds(h, k) && h.first < k }

  function MarkerAt(hs: seq<Hole>, k: nat): string {
    if hs == [] then [] else if hs[0].last == k then hs[0].marker else MarkerAt(hs[1..], k)
  }

  /** A word as it is, or the marker of the hole that ends with it. */
  function Shown(ws: seq<Word>, hs: seq<Hole>, k: nat): string
    requires k < |ws|
  {
    if InHole(hs, k) then MarkerAt(hs, k) else ws[k].text
  }

  function ShownGap(ws: seq<Word>, hs: seq<Hole>, k: nat): string {
    if k < |ws| && !IsInner(hs, k) then ws[k].gap else []
  }

  /** The text from the start of word `i` to the start of word `j`, with a marker for every hole. */
  function Marked(ws: seq<Word>, hs: seq<Hole>, i: nat, j: nat): string
    requires j <= |ws|
    decreases j
  {
    if j <= i then [] else Marked(ws, hs, i, j - 1) + (Shown(ws, hs, j - 1) + ShownGap(ws, hs, j))
  }

  /** The text from the start of word `i` to the start of word `j`. */
  function Slice(source: string, ws: seq<Word>, i: nat, j: nat): string
    requires j <= |ws| && i < |ws|
  {
    if Start(ws, i) <= StartOrEnd(ws, j) <= |source| then source[Start(ws, i)..StartOrEnd(ws, j)] else []
  }

  lemma StartsInText(ws: seq<Word>, rest: string, i: nat, j: nat)
    requires i <= j <= |ws| && i < |ws|
    ensures Start(ws, i) <= StartOrEnd(ws, j) <= |Whole(ws, rest)|
    ensures i < j ==> End(ws, i + 1) <= StartOrEnd(ws, j) && Start(ws, i) + |ws[i].text| == End(ws, i + 1)
  {
    hide TextOf, Whole;
    SliceBetween(ws, rest, j, j);
    EndOfOneMore(ws, i);
    if i < j {
      EndsGrow(ws, i + 1, j);
      if j < |ws| { EndOfOneMore(ws, j); }
    }
  }

  /** A word and the gap in front of the next one. */
  function WordAndGap(ws: seq<Word>, k: nat): string
    requires k < |ws|
  {
    ws[k].text + (if k + 1 < |ws| then ws[k + 1].gap else [])
  }

  /** One more word at the end of a stretch of text. */
  lemma SliceGrows(ws: seq<Word>, rest: string, i: nat, j: nat)
    requires i < j <= |ws|
    ensures Slice(Whole(ws, rest), ws, i, j) == Slice(Whole(ws, rest), ws, i, j - 1) + WordAndGap(ws, j - 1)
  {
    hide TextOf, Whole, StartOrEnd, Start, Slice, WordAndGap;
    StartsInText(ws, rest, i, j - 1);
    WordThenGap(ws, rest, j - 1);
    SliceCut(Whole(ws, rest), ws, i, j - 1, j);
  }

  lemma SliceCut(s: string, ws: seq<Word>, i: nat, j: nat, k: nat)
    requires j <= k <= |ws| && i < |ws|
    requires Start(ws, i) <= StartOrEnd(ws, j) <= StartOrEnd(ws, k) <= |s|
    ensures Slice(s, ws, i, k) == Slice(s, ws, i, j) + s[StartOrEnd(ws, j)..StartOrEnd(ws, k)]
  {
    hide StartOrEnd, Start;
    Cut(s, Start(ws, i), StartOrEnd(ws, j), StartOrEnd(ws, k));
  }

  lemma Cut(s: string, a: nat, b: nat, c: nat)
    requires a <= b <= c <= |s|
    ensures s[a..c] == s[a..b] + s[b..c]
  {}

  lemma AtStart(ws: seq<Word>, k: nat)
    requires k < |ws|
    ensures StartOrEnd(ws, k) == Start(ws, k)
  {}

  lemma WordThenGap(ws: seq<Word>, rest: string, k: nat)
    requires k < |ws|
    ensures StartOrEnd(ws, k) <= StartOrEnd(ws, k + 1) <= |Whole(ws, rest)|
    ensures Whole(ws, rest)[StartOrEnd(ws, k)..StartOrEnd(ws, k + 1)] == WordAndGap(ws, k)
  {
    hide TextOf, Whole, StartOrEnd, Between, Start;
    var s := Whole(ws, rest);
    SliceBetween(ws, rest, k + 1, k + 1);
    WordInText(ws, rest, k);
    BetweenNothing(ws, k + 1);
    AtStart(ws, k);
    Cut(s, Start(ws, k), End(ws, k + 1), StartOrEnd(ws, k + 1));
  }

  lemma BetweenNothing(ws: seq<Word>, k: nat)
    requires k <= |ws|
    ensures Between(ws, k, k) == if k < |ws| then ws[k].gap else []
  {}

  lemma WordInText(ws: seq<Word>, rest: string, k: nat)
    requires k < |ws|
    ensures Start(ws, k) <= End(ws, k + 1) <= |Whole(ws, rest)|
    ensures Whole(ws, rest)[Start(ws, k)..End(ws, k + 1)] == ws[k].text
  {
    hide TextOf;
    WordSlice(ws, k);
    EndOfOneMore(ws, k);
    SliceInFront(TextOf(ws), rest, Start(ws, k), End(ws, k + 1));
  }

  /** Where there are no holes the marked text is the text. */
  lemma {:induction false} PlainIsMarked(ws: seq<Word>, rest: string, hs: seq<Hole>, i: nat, a: nat, j: nat)
    requires i <= a <= j <= |ws| && i < |ws|
    requires forall k :: a <= k < j ==> !InHole(hs, k)
    requires j < |ws| ==> !IsInner(hs, j)
    requires forall k :: a < k < j ==> !IsInner(hs, k)
    ensures a < |ws| ==> Marked(ws, hs, i, j) == Marked(ws, hs, i, a) + Slice(Whole(ws, rest), ws, a, j)
    decreases j
  {
    hide TextOf, Whole, Slice, Start, StartOrEnd, Shown, ShownGap, WordAndGap;
    if a < |ws| {
      if a == j {
        SliceOfNothing(ws, rest, a);
        assert Marked(ws, hs, i, a) + [] == Marked(ws, hs, i, a);
      } else {
        InnerIsIn(hs, j - 1);
        PlainIsMarked(ws, rest, hs, i, a, j - 1);
        SliceGrows(ws, rest, a, j);
        ShownPlain(ws, hs, j - 1);
        Regroup(Marked(ws, hs, i, a), Slice(Whole(ws, rest), ws, a, j - 1), WordAndGap(ws, j - 1));
      }
    }
  }

  lemma InnerIsIn(hs: seq<Hole>, k: nat)
    ensures IsInner(hs, k) ==> InHole(hs, k)
  {}

  lemma ShownPlain(ws: seq<Word>, hs: seq<Hole>, k: nat)
    requires k < |ws| && !InHole(hs, k) && (k + 1 < |ws| ==> !IsInner(hs, k + 1))
    ensures Shown(ws, hs, k) + ShownGap(ws, hs, k + 1) == WordAndGap(ws, k)
  {}

  lemma SliceOfNothing(ws: seq<Word>, rest: string, a: nat)
    requires a < |ws|
    ensures Slice(Whole(ws, rest), ws, a, a) == []
  {
    hide TextOf, Whole;
    StartsInText(ws, rest, a, a);
  }

  predicate AllApart(hs: seq<Hole>) {
    forall a, b :: a in hs && b in hs ==> a == b || a.last < b.first || b.last < a.first
  }

  predicate IsShort(h: Hole) { h.first <= h.last <= h.first + 1 }

  lemma SoundIsApart(tokens: Tokens, hs: seq<Hole>)
    requires AllSound(tokens, hs)
    ensures AllApart(hs) && forall h :: h in hs ==> IsShort(h) && h.last < |tokens|
  {
    hide IsSound;
    forall a, b | a in hs && b in hs ensures a == b || a.last < b.first || b.last < a.first { HolesApart(tokens, a, b); }
    forall h | h in hs ensures IsShort(h) && h.last < |tokens| { SoundIsShort(tokens, h); }
  }

  lemma SoundIsShort(tokens: Tokens, h: Hole)
    requires IsSound(tokens, h)
    ensures IsShort(h) && h.last < |tokens|
  {}

  lemma {:induction false} MarkerOfHole(hs: seq<Hole>, h: Hole)
    requires AllApart(hs) && h in hs && (forall g :: g in hs ==> g.first <= g.last)
    ensures MarkerAt(hs, h.last) == h.marker
  {
    if hs[0] != h { MarkerOfHole(hs[1..], h); }
  }

  lemma {:induction false} NoMarker(hs: seq<Hole>, k: nat)
    requires forall g :: g in hs ==> g.last != k
    ensures MarkerAt(hs, k) == []
  {
    if hs != [] { NoMarker(hs[1..], k); }
  }

  /** The first token of a hole and the token behind one have their gaps shown. */
  lemma EdgesAreShown(hs: seq<Hole>, h: Hole)
    requires AllApart(hs) && h in hs && forall g :: g in hs ==> IsShort(g)
    ensures !IsInner(hs, h.first) && !IsInner(hs, h.last + 1)
    ensures h.first < h.last ==> IsInner(hs, h.last)
    ensures InHole(hs, h.first) && InHole(hs, h.last)
  {
    assert Holds(h, h.first) && Holds(h, h.last);
  }

  lemma MarkedStep(ws: seq<Word>, hs: seq<Hole>, i: nat, j: nat)
    requires i <= j < |ws|
    ensures Marked(ws, hs, i, j + 1) == Marked(ws, hs, i, j) + (Shown(ws, hs, j) + ShownGap(ws, hs, j + 1))
  {}

  /** A hole shows as its marker and the gap behind it. */
  lemma HoleShows(ws: seq<Word>, hs: seq<Hole>, h: Hole, i: nat)
    requires AllApart(hs) && h in hs && (forall g :: g in hs ==> IsShort(g)) && i <= h.first <= h.last < |ws|
    ensures Marked(ws, hs, i, h.last + 1)
      == Marked(ws, hs, i, h.first) + (h.marker + (if h.last + 1 < |ws| then ws[h.last + 1].gap else []))
  {
    hide Marked, AllApart, IsInner, InHole;
    EdgesAreShown(hs, h);
    MarkerOfHole(hs, h);
    MarkedStep(ws, hs, i, h.last);
    if h.first < h.last {
      NoneEndsInside(hs, h);
      NoMarker(hs, h.first);
      MarkedStep(ws, hs, i, h.first);
      assert "" + "" == "";
      assert Marked(ws, hs, i, h.first) + [] == Marked(ws, hs, i, h.first);
    }
  }

  lemma NoneEndsInside(hs: seq<Hole>, h: Hole)
    requires AllApart(hs) && h in hs && (forall g :: g in hs ==> IsShort(g)) && h.first < h.last
    ensures forall g :: g in hs ==> g.last != h.first
  {}

  /** What follows a hole: the gap behind it and the text from the next word on. */
  lemma BehindHole(ws: seq<Word>, rest: string, b: nat, j: nat)
    requires b < j <= |ws|
    ensures End(ws, b + 1) <= StartOrEnd(ws, j) <= |Whole(ws, rest)|
    ensures Whole(ws, rest)[End(ws, b + 1)..StartOrEnd(ws, j)]
      == (if b + 1 < |ws| then ws[b + 1].gap else []) + (if b + 1 < |ws| then Slice(Whole(ws, rest), ws, b + 1, j) else [])
  {
    hide TextOf, Whole, StartOrEnd, Between;
    var s := Whole(ws, rest);
    SliceBetween(ws, rest, b + 1, j);
    SliceBetween(ws, rest, b + 1, b + 1);
    BetweenNothing(ws, b + 1);
    if b + 1 < |ws| {
      AtStart(ws, b + 1);
      StartsInText(ws, rest, b + 1, j);
      Cut(s, End(ws, b + 1), Start(ws, b + 1), StartOrEnd(ws, j));
    }
  }

  /** The marked text up to `j`, when `h` is the last hole before it. */
  lemma MarkedBehindHole(ws: seq<Word>, rest: string, hs: seq<Hole>, h: Hole, i: nat, j: nat)
    requires AllApart(hs) && h in hs && forall g :: g in hs ==> IsShort(g)
    requires i <= h.first <= h.last < j <= |ws|
    requires (forall g :: g in hs ==> g.last <= h.last || j <= g.first) && (j < |ws| ==> !IsInner(hs, j))
    ensures End(ws, h.last + 1) <= StartOrEnd(ws, j) <= |Whole(ws, rest)|
    ensures Marked(ws, hs, i, j)
      == Marked(ws, hs, i, h.first) + (h.marker + Whole(ws, rest)[End(ws, h.last + 1)..StartOrEnd(ws, j)])
  {
    hide TextOf, Whole, StartOrEnd, Marked, AllApart, Slice;
    HoleShows(ws, hs, h, i);
    BehindHole(ws, rest, h.last, j);
    forall k | h.last < k < j ensures !InHole(hs, k) && !IsInner(hs, k) {}
    var b := h.last + 1;
    if b < |ws| {
      PlainIsMarked(ws, rest, hs, i, b, j);
      assert h.marker + ws[b].gap + Slice(Whole(ws, rest), ws, b, j) == h.marker + (ws[b].gap + Slice(Whole(ws, rest), ws, b, j));
      Regroup(Marked(ws, hs, i, h.first), h.marker + ws[b].gap, Slice(Whole(ws, rest), ws, b, j));
    } else {
      assert "" + "" == "";
    }
  }

  // ---- Substitution at the level of words --------------------------------------------------------------

  /** From right to left, and apart. */
  predicate FallApart(ss: seq<Hole>) { forall a, b :: 0 <= a < b < |ss| ==> ss[b].last < ss[a].first }

  /** `ss` are the holes that start before word `j`, from right to left, and `j` is not inside one. */
  ghost predicate AreBefore(ss: seq<Hole>, hs: seq<Hole>, ws: seq<Word>, i: nat, j: nat) {
    && FallApart(ss) && i <= j <= |ws| && i < |ws| && (j < |ws| ==> !IsInner(hs, j))
    && (forall h :: h in ss <==> h in hs && h.first < j)
    && (forall h :: h in hs ==> IsShort(h) && i <= h.first && h.last < |ws|)
    && AllApart(hs)
  }

  lemma BeforeRest(ss: seq<Hole>, hs: seq<Hole>, ws: seq<Word>, i: nat, j: nat)
    requires AreBefore(ss, hs, ws, i, j) && ss != []
    ensures AreBefore(ss[1..], hs, ws, i, ss[0].first)
    ensures ss[0] in hs && i <= ss[0].first && ss[0].last < j
    ensures forall g :: g in hs ==> g.last <= ss[0].last || j <= g.first
  {
    var h := ss[0];
    assert h in ss;
    EdgesAreShown(hs, h);
    forall g ensures g in ss[1..] <==> g in hs && g.first < h.first {
      if g in hs && g.first < h.first { assert g in ss && g != h; }
      if g in ss[1..] {
        var k :| 0 <= k < |ss| - 1 && ss[1..][k] == g;
        assert ss[k + 1].last < ss[0].first;
        assert g in ss;
      }
    }
    forall g | g in hs ensures g.last <= h.last || j <= g.first {
      if g.first < j {
        assert g in ss;
        var k :| 0 <= k < |ss| && ss[k] == g;
        if k > 0 { assert ss[k].last < ss[0].first; }
      }
    }
    assert Holds(h, j) ==> IsInner(hs, j);
  }

  lemma PlaceInSlice(ws: seq<Word>, rest: string, h: Hole, i: nat, j: nat)
    requires Solid(ws) && i <= h.first <= h.last < j <= |ws|
    ensures var r, text := Place(TokensOf(ws), h, Start(ws, i)), Slice(Whole(ws, rest), ws, i, j);
      && r.start < r.end <= |text| && r.value == h.marker
      && text[..r.start] == Slice(Whole(ws, rest), ws, i, h.first)
      && End(ws, h.last + 1) <= StartOrEnd(ws, j) <= |Whole(ws, rest)|
      && text[r.end..] == Whole(ws, rest)[End(ws, h.last + 1)..StartOrEnd(ws, j)]
  {
    hide TextOf, Whole, StartOrEnd, Solid;
    PlaceOfHole(ws, h, i);
    StartsInText(ws, rest, i, j);
    StartsInText(ws, rest, i, h.first);
    StartsInText(ws, rest, h.last, j);
    StartsInText(ws, rest, h.first, j);
    AtStart(ws, h.first);
  }

  lemma PlaceOfHole(ws: seq<Word>, h: Hole, i: nat)
    requires Solid(ws) && i <= h.first <= h.last < |ws|
    ensures Start(ws, i) <= Start(ws, h.first) < End(ws, h.last + 1)
    ensures Place(TokensOf(ws), h, Start(ws, i)) == Replacement(Start(ws, h.first) - Start(ws, i), End(ws, h.last + 1) - Start(ws, i), h.marker)
  {
    hide TextOf, Whole, Ordered;
    TokensOrdered(ws);
    StartsGrow(TokensOf(ws), i, h.first);
    StartsGrow(TokensOf(ws), h.first, h.last);
  }

  /** Replacing the holes at once gives the marked text. */
  lemma {:induction false} SubstitutedIsMarked(ws: seq<Word>, rest: string, hs: seq<Hole>, ss: seq<Hole>, i: nat, j: nat)
    requires Solid(ws) && AreBefore(ss, hs, ws, i, j)
    ensures var text, rs := Slice(Whole(ws, rest), ws, i, j), Placed(TokensOf(ws), ss, Start(ws, i));
      Separate(text, rs) && Substituted(text, rs) == Marked(ws, hs, i, j)
    decreases |ss|
  {
    hide TextOf, Whole, Solid, AreBefore, Separate, Slice, Marked, Place, TokensOf, Start, StartOrEnd;
    if ss == [] {
      NothingBefore(ws, rest, hs, i, j);
    } else {
      BeforeFacts(ss, hs, ws, i, j);
      var h, from := ss[0], Start(ws, i);
      BeforeRest(ss, hs, ws, i, j);
      SubstitutedIsMarked(ws, rest, hs, ss[1..], i, h.first);
      var rs := Placed(TokensOf(ws), ss, from);
      assert rs[0] == Place(TokensOf(ws), h, from) && rs[1..] == Placed(TokensOf(ws), ss[1..], from);
      PlaceInSlice(ws, rest, h, i, j);
      SeparateFront(Slice(Whole(ws, rest), ws, i, j), rs);
      MarkedBehindHole(ws, rest, hs, h, i, j);
    }
  }

  lemma BeforeFacts(ss: seq<Hole>, hs: seq<Hole>, ws: seq<Word>, i: nat, j: nat)
    requires AreBefore(ss, hs, ws, i, j)
    ensures i <= j <= |ws| && i < |ws| && AllApart(hs) && (j < |ws| ==> !IsInner(hs, j))
    ensures forall h :: h in hs ==> IsShort(h) && i <= h.first && h.last < |ws|
  {}

  lemma NothingBefore(ws: seq<Word>, rest: string, hs: seq<Hole>, i: nat, j: nat)
    requires AreBefore([], hs, ws, i, j)
    ensures Placed(TokensOf(ws), [], Start(ws, i)) == []
    ensures Separate(Slice(Whole(ws, rest), ws, i, j), [])
    ensures Slice(Whole(ws, rest), ws, i, j) == Marked(ws, hs, i, j)
  {
    hide TextOf, Whole, Slice, Start;
    forall k | i <= k < j ensures !InHole(hs, k) && !IsInner(hs, k) {
      forall h | h in hs ensures !Holds(h, k) { assert h !in []; }
    }
    PlainIsMarked(ws, rest, hs, i, i, j);
    NoneMarked(ws, hs, i);
    assert [] + Slice(Whole(ws, rest), ws, i, j) == Slice(Whole(ws, rest), ws, i, j);
  }

  lemma NoneMarked(ws: seq<Word>, hs: seq<Hole>, i: nat)
    requires i <= |ws|
    ensures Marked(ws, hs, i, i) == []
  {}

  lemma NothingMarked(ws: seq<Word>, hs: seq<Hole>, i: nat, j: nat)
    requires j <= |ws| && j <= i
    ensures Marked(ws, hs, i, j) == []
  {}

  // ---- The normalized text of an owner ------------------------------------------------------------------

  /** What the source makes of an owner: its usages' names and defaults replaced, white space tidied. */
  function NormalizedText(source: string, tokens: Tokens, o: Owner): string
    requires LieIn(tokens, source) && IsOwner(tokens, o)
  {
    UsagesWellPlaced(tokens, UsagesIn(tokens));
    var extent := OwnerExtent(tokens, o);
    ExtentInSource(source, tokens, o);
    Tidy(Splice(source[extent.start..extent.end], SortDescending(Replacements(extent, UsageExtents(tokens, UsagesIn(tokens))))))
  }

  lemma ExtentInSource(source: string, tokens: Tokens, o: Owner)
    requires LieIn(tokens, source) && IsOwner(tokens, o)
    ensures OwnerExtent(tokens, o).start <= OwnerExtent(tokens, o).end <= |source|
  {
    hide Ordered;
    StartsGrow(tokens, o.first, |tokens| - 1);
    if o.stop < |tokens| {
      StartsGrow(tokens, o.first, o.stop);
      StartsGrow(tokens, o.stop, o.stop);
    }
  }

  method NormalizeOwner(source: string, tokens: Tokens, o: Owner) returns (r: string)
    requires LieIn(tokens, source) && IsOwner(tokens, o)
    ensures r == NormalizedText(source, tokens, o)
  {
    var usages := CollectUsages(tokens);
    UsagesWellPlaced(tokens, usages);
    ExtentInSource(source, tokens, o);
    r := NormalizedOwnerText(source, OwnerExtent(tokens, o), UsageExtents(tokens, usages));
  }

  lemma ExtentOfWords(ws: seq<Word>, o: Owner)
    requires IsOwner(TokensOf(ws), o)
    ensures OwnerExtent(TokensOf(ws), o).start == Start(ws, o.first)
    ensures OwnerExtent(TokensOf(ws), o).end == StartOrEnd(ws, o.stop)
  {
    hide TextOf, Whole;
  }

  lemma SliceIs(s: string, ws: seq<Word>, i: nat, j: nat)
    requires j <= |ws| && i < |ws| && Start(ws, i) <= StartOrEnd(ws, j) <= |s|
    ensures Slice(s, ws, i, j) == s[Start(ws, i)..StartOrEnd(ws, j)]
  {
    hide TextOf, Whole, Start, StartOrEnd;
  }

  lemma OwnerSlice(ws: seq<Word>, rest: string, o: Owner)
    requires Solid(ws) && IsOwner(TokensOf(ws), o)
    ensures LieIn(TokensOf(ws), Whole(ws, rest))
    ensures var e := OwnerExtent(TokensOf(ws), o);
      && e.start == Start(ws, o.first) <= e.end == StartOrEnd(ws, o.stop) <= |Whole(ws, rest)|
      && Whole(ws, rest)[e.start..e.end] == Slice(Whole(ws, rest), ws, o.first, o.stop)
  {
    hide TextOf, Whole, Solid, LieIn, Slice, Start, StartOrEnd, OwnerExtent;
    WordsLie(ws, rest);
    StartsInText(ws, rest, o.first, o.stop);
    ExtentOfWords(ws, o);
    SliceIs(Whole(ws, rest), ws, o.first, o.stop);
  }

  /** The normalized text, from the sorted holes. */
  lemma NormalizedByHoles(ws: seq<Word>, rest: string, o: Owner)
    requires Solid(ws) && IsOwner(TokensOf(ws), o)
    ensures LieIn(TokensOf(ws), Whole(ws, rest))
    ensures NormalizedText(Whole(ws, rest), TokensOf(ws), o)
      == Tidy(Splice(Slice(Whole(ws, rest), ws, o.first, o.stop),
                     Placed(TokensOf(ws), Sorted(HolesIn(TokensOf(ws), o)), Start(ws, o.first))))
  {
    hide TextOf, Whole, Solid, LieIn, Ordered, Tidy, Splice, Slice, UsagesIn, HolesOf, Place, Replacements, SortDescending, Sorted, StartOrEnd;
    var tokens := TokensOf(ws);
    OwnerSlice(ws, rest, o);
    TokensOrdered(ws);
    ReplacementsArePlaced(tokens, UsagesIn(tokens), o);
    OwnerHolesSound(tokens, o);
    SortPlaced(tokens, o, HolesIn(tokens, o));
  }
}
