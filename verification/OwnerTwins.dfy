/**
 Sources that differ only in the names and defaults of an owner, and when the normalized
 text of scripts/release-safety-config-diff.ts does not tell them apart.
 */
module OwnerTwins {
  import opened Options
  import opened JsText
  import opened Sequences
  import opened OwnerText
  import opened SourceWords
  import opened ConfigUsages
  import opened UsageTwins
  import opened OwnerHoles
  import opened MarkedText
  import opened OwnerTails
  import L = Lexer

  // ---- Twins ----------------------------------------------------------------------------------

  /**
   Words that differ at most in the holes: names stay names, literals stay literals and keep
   their sign or their lack of one, and everything between the holes is the same.
   */
  predicate AreTwins(ws: seq<Word>, xs: seq<Word>, hs: seq<Hole>) {
    && |ws| == |xs| && Solid(xs) && Alike(TokensOf(ws), TokensOf(xs))
    && forall k :: 0 <= k < |ws| ==> SameOutside(ws, xs, hs, k)
  }

  predicate SameOutside(ws: seq<Word>, xs: seq<Word>, hs: seq<Hole>, k: nat)
    requires k < |ws| == |xs|
  {
    (!InHole(hs, k) ==> ws[k].text == xs[k].text) && (!IsInner(hs, k) ==> ws[k].gap == xs[k].gap)
  }

  /** Twins have the same holes, so they are twins of each other. */
  lemma TwinsShareHoles(ws: seq<Word>, xs: seq<Word>, o: Owner)
    requires Solid(ws) && IsOwner(TokensOf(ws), o) && AreTwins(ws, xs, HolesIn(TokensOf(ws), o))
    ensures IsOwner(TokensOf(xs), o) && HolesIn(TokensOf(xs), o) == HolesIn(TokensOf(ws), o)
    ensures BehindIn(xs, o) == BehindIn(ws, o) && InsideIn(xs, o) == InsideIn(ws, o)
  {
    hide Alike, Ordered, Solid, HolesOf, SameOutside, Sorted, BehindOwner, InOwner;
    TokensOrdered(ws);
    TokensOrdered(xs);
    UsagesStay(TokensOf(ws), TokensOf(xs));
    if o.stop < |ws| { MarkStays(TokensOf(ws), TokensOf(xs), o.stop); }
  }

  // ---- What twins have in common -----------------------------------------------------------------

  lemma ShownAlike(ws: seq<Word>, xs: seq<Word>, hs: seq<Hole>, k: nat)
    requires k < |ws| == |xs| && (forall k :: 0 <= k < |ws| ==> SameOutside(ws, xs, hs, k))
    ensures Shown(ws, hs, k) == Shown(xs, hs, k) && ShownGap(ws, hs, k + 1) == ShownGap(xs, hs, k + 1)
  {
    hide IsInner, InHole;
    assert SameOutside(ws, xs, hs, k);
    if k + 1 < |ws| { assert SameOutside(ws, xs, hs, k + 1); }
  }

  lemma {:induction false} SameMarked(ws: seq<Word>, xs: seq<Word>, hs: seq<Hole>, i: nat, j: nat)
    requires j <= |ws| == |xs| && (forall k :: 0 <= k < |ws| ==> SameOutside(ws, xs, hs, k))
    ensures Marked(ws, hs, i, j) == Marked(xs, hs, i, j)
    decreases j
  {
    hide SameOutside, Shown, ShownGap, Marked;
    if i < j {
      SameMarked(ws, xs, hs, i, j - 1);
      ShownAlike(ws, xs, hs, j - 1);
      MarkedStep(ws, hs, i, j - 1);
      MarkedStep(xs, hs, i, j - 1);
    } else {
      NothingMarked(ws, hs, i, j);
      NothingMarked(xs, hs, i, j);
    }
  }

  /** Between the end of the first `i` words and word `j` twins agree when no hole is there. */
  lemma SameBetween(ws: seq<Word>, xs: seq<Word>, hs: seq<Hole>, i: nat, j: nat)
    requires i <= j <= |ws| == |xs| && (forall k :: 0 <= k < |ws| ==> SameOutside(ws, xs, hs, k))
    requires (forall k :: i <= k < j ==> !InHole(hs, k)) && (j < |ws| ==> !IsInner(hs, j))
    ensures Between(ws, i, j) == Between(xs, i, j)
  {
    hide IsInner, InHole;
    forall k | i <= k < j ensures ws[k].gap == xs[k].gap && ws[k].text == xs[k].text {
      InnerIsIn(hs, k);
      assert SameOutside(ws, xs, hs, k);
    }
    SameStretch(ws, xs, i, j);
    if j < |ws| { assert SameOutside(ws, xs, hs, j); }
  }

  /** Twins see the first default behind the owner at the same distance. */
  lemma SameAhead(ws: seq<Word>, xs: seq<Word>, o: Owner)
    requires Solid(ws) && IsOwner(TokensOf(ws), o) && AreTwins(ws, xs, HolesIn(TokensOf(ws), o)) && BehindIn(ws, o) != []
    ensures var h := BehindIn(ws, o)[|BehindIn(ws, o)| - 1]; Ahead(ws, o, h) == Ahead(xs, o, h)
  {
    hide TextOf, Whole, Solid, Alike, IsInner, InHole, BehindIn, InsideIn, HolesIn, AllApart, SameOutside, Between;
    var hs, bs := HolesIn(TokensOf(ws), o), BehindIn(ws, o);
    var h := bs[|bs| - 1];
    assert h in bs;
    Split(ws, o);
    HolesLie(ws, o);
    NoneInFront(ws, o);
    EdgesAreShown(hs, h);
    SameBetween(ws, xs, hs, o.stop, h.first);
    assert SameOutside(ws, xs, hs, o.stop);
    AheadIsBetween(ws, o, h);
    AheadIsBetween(xs, o, h);
    SameGap(ws, xs, hs, o.stop);
  }

  lemma SameGap(ws: seq<Word>, xs: seq<Word>, hs: seq<Hole>, k: nat)
    requires k < |ws| == |xs| && SameOutside(ws, xs, hs, k) && !IsInner(hs, k)
    ensures ws[k].gap == xs[k].gap
  {}

  lemma NoneInFront(ws: seq<Word>, o: Owner)
    requires IsOwner(TokensOf(ws), o) && BehindIn(ws, o) != []
    ensures var bs := BehindIn(ws, o);
      forall k :: o.stop <= k < bs[|bs| - 1].first ==> !InHole(HolesIn(TokensOf(ws), o), k)
  {
    hide BehindIn, InsideIn, HolesIn;
    var bs := BehindIn(ws, o);
    Split(ws, o);
    SortedFalls(ws, o);
    forall k, g | o.stop <= k < bs[|bs| - 1].first && g in HolesIn(TokensOf(ws), o) ensures !Holds(g, k) {
      if g in bs {
        var i :| 0 <= i < |bs| && bs[i] == g;
        assert i < |bs| - 1 ==> bs[|bs| - 1].first <= bs[i].first;
      }
    }
  }

  lemma AheadIsBetween(ws: seq<Word>, o: Owner, h: Hole)
    requires o.stop <= h.first < |ws|
    ensures Ahead(ws, o, h) == |Between(ws, o.stop, h.first)| - |ws[o.stop].gap|
  {
    hide TextOf, Whole, Between;
    SliceBetween(ws, [], o.stop, h.first);
    StartsInText(ws, [], o.stop, h.first);
    AtStart(ws, h.first);
    AtStart(ws, o.stop);
  }

  // ---- Twins read alike -----------------------------------------------------------------------------

  /** Nothing in the owner is reported twice, and there is room for the defaults behind it. */
  predicate ReplacesOnce(ws: seq<Word>, o: Owner) {
    NoRepeats(InsideIn(ws, o)) && HasRoom(ws, BehindIn(ws, o), o)
  }

  lemma SameTail(ws: seq<Word>, xs: seq<Word>, o: Owner)
    requires Solid(ws) && IsOwner(TokensOf(ws), o) && AreTwins(ws, xs, HolesIn(TokensOf(ws), o))
    requires HasRoom(ws, BehindIn(ws, o), o)
    ensures Tail(ws, BehindIn(ws, o), o) == Tail(xs, BehindIn(xs, o), o)
  {
    hide TextOf, Whole, Solid, Alike, BehindIn, InsideIn, HolesIn, Splice, SameOutside, Place, StartOrEnd, Ahead;
    TwinsShareHoles(ws, xs, o);
    if BehindIn(ws, o) != [] {
      SameAhead(ws, xs, o);
      RoomyTail(ws, o);
      RoomyTail(xs, o);
    } else {
      assert Placed(TokensOf(ws), [], StartOrEnd(ws, o.stop)) == Placed(TokensOf(xs), [], StartOrEnd(xs, o.stop));
    }
  }

  /** Where each value is replaced once, twins have the same normalized text, whatever follows their last tokens. */
  lemma TwinsReadAlike(ws: seq<Word>, rest: string, xs: seq<Word>, more: string, o: Owner)
    requires Solid(ws) && IsOwner(TokensOf(ws), o) && AreTwins(ws, xs, HolesIn(TokensOf(ws), o))
    requires ReplacesOnce(ws, o)
    ensures LieIn(TokensOf(ws), Whole(ws, rest)) && LieIn(TokensOf(xs), Whole(xs, more)) && IsOwner(TokensOf(xs), o)
    ensures NormalizedText(Whole(ws, rest), TokensOf(ws), o) == NormalizedText(Whole(xs, more), TokensOf(xs), o)
  {
    hide TextOf, Whole, Solid, Alike, BehindIn, InsideIn, HolesIn, SameOutside, LieIn, Tail, Tidy, Marked, NormalizedText, HasRoom;
    TwinsShareHoles(ws, xs, o);
    NormalizedIsMarked(ws, rest, o);
    NormalizedIsMarked(xs, more, o);
    SameMarked(ws, xs, HolesIn(TokensOf(ws), o), o.first, o.stop);
    SameTail(ws, xs, o);
  }
}
