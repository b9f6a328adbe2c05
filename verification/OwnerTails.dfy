/**
 Defaults that scripts/release-safety-config-diff.ts finds behind the end of an owner: their
 markers pile up at the end of the owner's text, and what that looks like.
 */
module OwnerTails {
  import opened Options
  import opened JsText
  import opened Sequences
  import opened OwnerText
  import opened SourceWords
  import opened ConfigUsages
  import opened OwnerHoles
  import opened MarkedText
  import L = Lexer

  // ---- Holes inside the owner and behind it ---------------------------------------------------

  /** From right to left. */
  predicate Fall(ss: seq<Hole>) { forall i, j :: 0 <= i < j < |ss| ==> ss[j].first <= ss[i].first }

  /** The sorted holes that start where the owner ends or behind that. */
  function BehindOwner(ss: seq<Hole>, o: Owner): seq<Hole> {
    if ss == [] || ss[0].first < o.stop then [] else [ss[0]] + BehindOwner(ss[1..], o)
  }

  /** The sorted holes that start in the owner. */
  function InOwner(ss: seq<Hole>, o: Owner): seq<Hole> {
    if ss == [] || ss[0].first < o.stop then ss else InOwner(ss[1..], o)
  }

  lemma {:induction false} BehindLies(ss: seq<Hole>, o: Owner)
    ensures forall h :: h in BehindOwner(ss, o) ==> o.stop <= h.first
  {
    if ss != [] && ss[0].first >= o.stop { BehindLies(ss[1..], o); }
  }

  lemma {:induction false} InsideLies(ss: seq<Hole>, o: Owner)
    requires Fall(ss)
    ensures forall h :: h in InOwner(ss, o) ==> h.first < o.stop
  {
    hide Fall;
    if ss != [] {
      if ss[0].first >= o.stop {
        AfterFirst(ss);
        InsideLies(ss[1..], o);
      } else {
        AllBelowFirst(ss);
      }
    }
  }

  lemma AfterFirst(ss: seq<Hole>)
    requires Fall(ss) && ss != []
    ensures Fall(ss[1..])
  {}

  lemma AllBelowFirst(ss: seq<Hole>)
    requires Fall(ss) && ss != []
    ensures forall h :: h in ss ==> h.first <= ss[0].first
  {}

  lemma {:induction false} BehindThenInside(ss: seq<Hole>, o: Owner)
    ensures ss == BehindOwner(ss, o) + InOwner(ss, o)
  {
    if ss != [] && ss[0].first >= o.stop {
      BehindThenInside(ss[1..], o);
      assert ss == [ss[0]] + ss[1..];
    }
  }

  // ---- Replacements behind a text ---------------------------------------------------------------

  predicate IsMoved(r: Replacement, q: Replacement, n: nat) { r == Replacement(q.start + n, q.end + n, q.value) }

  /** The same replacements, `n` characters further on. */
  predicate AreMoved(rs: seq<Replacement>, qs: seq<Replacement>, n: nat) {
    |rs| == |qs| && forall k :: 0 <= k < |rs| ==> IsMoved(rs[k], qs[k], n)
  }

  lemma MovedOne(text: string, b: string, r: Replacement, q: Replacement)
    requires IsMoved(r, q, |text|) && q.start <= q.end
    ensures SpliceOne(text + b, r) == text + SpliceOne(b, q)
  {
    assert Take(text + b, r.start) == text + Take(b, q.start);
    assert Drop(text + b, r.end) == Drop(b, q.end);
  }

  /** Replacements behind a text leave it as it is. */
  lemma {:induction false} SpliceMoved(text: string, b: string, rs: seq<Replacement>, qs: seq<Replacement>)
    requires AreMoved(rs, qs, |text|) && forall q :: q in qs ==> q.start <= q.end
    ensures Splice(text + b, rs) == text + Splice(b, qs)
    decreases |rs|
  {
    hide SpliceOne, Splice;
    if rs == [] {
      SpliceNothing(text + b);
      SpliceNothing(b);
      assert qs == [];
    } else {
      assert qs[0] in qs;
      MovedOne(text, b, rs[0], qs[0]);
      SpliceNext(text + b, rs, text + SpliceOne(b, qs[0]));
      SpliceNext(b, qs, SpliceOne(b, qs[0]));
      SpliceMoved(text, SpliceOne(b, qs[0]), rs[1..], qs[1..]);
    }
  }

  lemma SpliceNothing(text: string)
    ensures Splice(text, []) == text
  {}

  lemma {:induction false} SpliceJoins(text: string, a: seq<Replacement>, b: seq<Replacement>)
    ensures Splice(text, a + b) == Splice(Splice(text, a), b)
    decreases |a|
  {
    hide SpliceOne, Splice;
    if a == [] {
      SpliceNothing(text);
      assert a + b == b;
    } else {
      SpliceNext(text, a + b, SpliceOne(text, a[0]));
      SpliceNext(text, a, SpliceOne(text, a[0]));
      assert (a + b)[1..] == a[1..] + b;
      SpliceJoins(SpliceOne(text, a[0]), a[1..], b);
    }
  }

  // ---- A pile of markers ------------------------------------------------------------------------

  /** Markers one behind the other. */
  function Pile(n: nat): string { if n == 0 then [] else Pile(n - 1) + DEFAULT }

  lemma {:induction false} PileLength(n: nat)
    ensures |Pile(n)| == n * |DEFAULT|
  {
    if n > 0 { PileLength(n - 1); }
  }

  /** Of the replacements, from right to left, each is the last one or lies behind it. */
  predicate Piles(rs: seq<Replacement>) {
    rs != [] && forall k :: 0 <= k < |rs| ==> OnPile(rs[k], rs[|rs| - 1])
  }

  predicate OnPile(r: Replacement, last: Replacement) {
    r.value == DEFAULT && r.start < r.end && (r == last || last.end <= r.start)
  }

  lemma SpliceOneLength(b: string, r: Replacement)
    requires r.value == DEFAULT
    ensures |SpliceOne(b, r)| == (if |b| <= r.start then |b| else r.start) + 9 + (if |b| <= r.end then 0 else |b| - r.end)
  {
    assert |DEFAULT| == 9;
  }

  /** The markers pile up when the last replacement ends behind all the others' markers. */
  lemma {:induction false} RoomyPile(rs: seq<Replacement>, i: nat)
    requires Piles(rs) && i < |rs|
    requires var last := rs[|rs| - 1]; last.end >= 9 * (|rs| - 1) && last.start + 2 >= 9 * (|rs| - 1)
    ensures Splice(Pile(i), rs[i..]) == Take(Pile(|rs| - 1), rs[|rs| - 1].start) + DEFAULT
    decreases |rs| - i
  {
    hide Splice, Pile;
    assert OnPile(rs[i], rs[|rs| - 1]);
    PileLength(i);
    assert rs[i..][0] == rs[i] && rs[i..][1..] == rs[i + 1..];
    SpliceNext(Pile(i), rs[i..], SpliceOne(Pile(i), rs[i]));
    if i + 1 == |rs| {
      SpliceNothing(SpliceOne(Pile(i), rs[i]));
      assert DEFAULT + [] == DEFAULT;
    } else {
      OneMoreOnPile(i, rs[i]);
      RoomyPile(rs, i + 1);
    }
  }

  lemma OneMoreOnPile(i: nat, r: Replacement)
    requires 9 * i <= r.start <= r.end && r.value == DEFAULT
    ensures SpliceOne(Pile(i), r) == Pile(i + 1)
  {
    PileLength(i);
    assert DEFAULT + [] == DEFAULT;
  }

  /** A short last replacement among the others' markers leaves some of them behind it. */
  lemma {:induction false} ShortLeavesMore(rs: seq<Replacement>, i: nat, b: string)
    requires Piles(rs) && i < |rs|
    requires var last := rs[|rs| - 1]; last.end <= last.start + 2 && last.end < 9 * (|rs| - 1)
    requires |b| >= 9 * i || |b| > rs[|rs| - 1].end
    ensures |Splice(b, rs[i..])| > rs[|rs| - 1].start + 9
    decreases |rs| - i
  {
    hide Splice, SpliceOne;
    var last := rs[|rs| - 1];
    assert OnPile(rs[i], last);
    assert rs[i..][0] == rs[i] && rs[i..][1..] == rs[i + 1..];
    SpliceNext(b, rs[i..], SpliceOne(b, rs[i]));
    SpliceOneLength(b, rs[i]);
    if i + 1 == |rs| {
      SpliceNothing(SpliceOne(b, rs[i]));
    } else {
      ShortLeavesMore(rs, i + 1, SpliceOne(b, rs[i]));
    }
  }

  /** Long replacements leave nothing behind them. */
  lemma {:induction false} LongLeavesNothing(rs: seq<Replacement>, i: nat, b: string)
    requires Piles(rs) && i < |rs| && rs[|rs| - 1].end >= 9 * |rs| && |b| <= 9 * i
    ensures |Splice(b, rs[i..])| <= rs[|rs| - 1].start + 9
    decreases |rs| - i
  {
    hide Splice, SpliceOne;
    var last := rs[|rs| - 1];
    assert OnPile(rs[i], last);
    assert rs[i..][0] == rs[i] && rs[i..][1..] == rs[i + 1..];
    SpliceNext(b, rs[i..], SpliceOne(b, rs[i]));
    SpliceOneLength(b, rs[i]);
    if i + 1 == |rs| {
      SpliceNothing(SpliceOne(b, rs[i]));
    } else {
      LongLeavesNothing(rs, i + 1, SpliceOne(b, rs[i]));
    }
  }

  predicate OnlyInk(s: string) { forall k :: 0 <= k < |s| ==> !IsSpace(s[k]) }

  lemma DefaultIsInk()
    ensures OnlyInk(DEFAULT)
  {
    assert forall c :: c in DEFAULT ==> !IsSpace(c);
  }

  lemma {:induction false} PileIsInk(b: string, rs: seq<Replacement>)
    requires OnlyInk(b) && forall r :: r in rs ==> r.value == DEFAULT
    ensures Ink(Splice(b, rs)) == |Splice(b, rs)|
    decreases |rs|
  {
    hide Splice, Ink;
    if rs == [] {
      SpliceNothing(b);
      InkBound(b);
    } else {
      assert rs[0] in rs;
      SpliceNext(b, rs, SpliceOne(b, rs[0]));
      InkStaysInk(b, rs[0]);
      PileIsInk(SpliceOne(b, rs[0]), rs[1..]);
    }
  }

  lemma InkStaysInk(b: string, r: Replacement)
    requires OnlyInk(b) && r.value == DEFAULT
    ensures OnlyInk(SpliceOne(b, r))
  {
    DefaultIsInk();
  }

  // ---- The tail of an owner's text ----------------------------------------------------------------

  /** What the holes `bs` behind the owner leave at the end of its text. */
  function Tail(ws: seq<Word>, bs: seq<Hole>, o: Owner): string
    requires o.stop <= |ws|
  {
    Splice([], Placed(TokensOf(ws), bs, StartOrEnd(ws, o.stop)))
  }

  lemma PlaceMoves(ws: seq<Word>, h: Hole, i: nat, j: nat)
    requires Solid(ws) && i <= j <= h.first <= h.last < |ws|
    ensures Start(ws, i) <= StartOrEnd(ws, j)
    ensures var q := Place(TokensOf(ws), h, StartOrEnd(ws, j));
      q.start < q.end && IsMoved(Place(TokensOf(ws), h, Start(ws, i)), q, StartOrEnd(ws, j) - Start(ws, i))
  {
    hide TextOf, Whole, Place, TokensOf, Start, StartOrEnd;
    StartsInText(ws, [], i, j);
    PlaceOfHole(ws, h, i);
    PlaceOfHole(ws, h, j);
    AtStart(ws, j);
  }

  lemma SliceLength(s: string, ws: seq<Word>, i: nat, j: nat)
    requires j <= |ws| && i < |ws| && Start(ws, i) <= StartOrEnd(ws, j) <= |s|
    ensures |Slice(s, ws, i, j)| == StartOrEnd(ws, j) - Start(ws, i)
  {}

  /** The holes behind the owner only add to the end of its text. */
  lemma BehindOnlyAdds(ws: seq<Word>, rest: string, bs: seq<Hole>, o: Owner)
    requires Solid(ws) && IsOwner(TokensOf(ws), o)
    requires forall h :: h in bs ==> o.stop <= h.first <= h.last < |ws|
    ensures var text := Slice(Whole(ws, rest), ws, o.first, o.stop);
      Splice(text, Placed(TokensOf(ws), bs, Start(ws, o.first))) == text + Tail(ws, bs, o)
  {
    hide TextOf, Whole, Slice, Place, TokensOf, Start, StartOrEnd, Splice, Solid;
    var source := Whole(ws, rest);
    var text := Slice(source, ws, o.first, o.stop);
    StartsInText(ws, rest, o.first, o.stop);
    SliceLength(source, ws, o.first, o.stop);
    var rs, qs := Placed(TokensOf(ws), bs, Start(ws, o.first)), Placed(TokensOf(ws), bs, StartOrEnd(ws, o.stop));
    forall k | 0 <= k < |bs| ensures qs[k].start <= qs[k].end && IsMoved(rs[k], qs[k], |text|) {
      assert bs[k] in bs;
      PlaceMoves(ws, bs[k], o.first, o.stop);
    }
    SpliceMoved(text, [], rs, qs);
    assert text + [] == text;
  }

  /** The holes of an owner, sorted and split at its end. */
  function SortedIn(ws: seq<Word>, o: Owner): seq<Hole> { Sorted(HolesIn(TokensOf(ws), o)) }

  function BehindIn(ws: seq<Word>, o: Owner): seq<Hole> { BehindOwner(SortedIn(ws, o), o) }

  function InsideIn(ws: seq<Word>, o: Owner): seq<Hole> { InOwner(SortedIn(ws, o), o) }

  lemma Split(ws: seq<Word>, o: Owner)
    requires IsOwner(TokensOf(ws), o)
    ensures SortedIn(ws, o) == BehindIn(ws, o) + InsideIn(ws, o)
    ensures forall h :: h in BehindIn(ws, o) ==> o.stop <= h.first <= h.last < |ws|
    ensures forall h :: h in InsideIn(ws, o) ==> o.first <= h.first <= h.last < o.stop
    ensures forall h :: h in HolesIn(TokensOf(ws), o) <==> h in BehindIn(ws, o) || h in InsideIn(ws, o)
  {
    hide BehindOwner, InOwner, Sorted, HolesIn, IsSound;
    var tokens := TokensOf(ws);
    var hs := HolesIn(tokens, o);
    SortedHoles(hs);
    BehindThenInside(Sorted(hs), o);
    BehindLies(Sorted(hs), o);
    InsideLies(Sorted(hs), o);
    OwnerHolesSound(tokens, o);
    forall h | h in hs ensures o.first <= h.first <= h.last < |ws| && (h.first < o.stop ==> h.last < o.stop) {
      assert LiesBehind(tokens, o, h) && IsSound(tokens, h);
      if h.first < o.stop { StaysInside(tokens, o, h); }
    }
  }

  /** A hole does not reach over the end of an owner. */
  lemma StaysInside(tokens: Tokens, o: Owner, h: Hole)
    requires IsSound(tokens, h) && IsOwner(tokens, o) && h.first < o.stop
    ensures h.last < o.stop
  {}

  /** The normalized text: the holes inside are replaced in the owner's text with the tail behind it. */
  lemma NormalizedByTail(ws: seq<Word>, rest: string, o: Owner)
    requires Solid(ws) && IsOwner(TokensOf(ws), o)
    ensures LieIn(TokensOf(ws), Whole(ws, rest))
    ensures NormalizedText(Whole(ws, rest), TokensOf(ws), o)
      == Tidy(Splice(Slice(Whole(ws, rest), ws, o.first, o.stop) + Tail(ws, BehindIn(ws, o), o),
                     Placed(TokensOf(ws), InsideIn(ws, o), Start(ws, o.first))))
  {
    hide TextOf, Whole, Slice, Place, TokensOf, Start, Splice, Solid, LieIn, Tail, Tidy, BehindIn, InsideIn, NormalizedText;
    NormalizedByHoles(ws, rest, o);
    Split(ws, o);
    var text, from := Slice(Whole(ws, rest), ws, o.first, o.stop), Start(ws, o.first);
    PlacedJoins(TokensOf(ws), BehindIn(ws, o), InsideIn(ws, o), from);
    SpliceJoins(text, Placed(TokensOf(ws), BehindIn(ws, o), from), Placed(TokensOf(ws), InsideIn(ws, o), from));
    BehindOnlyAdds(ws, rest, BehindIn(ws, o), o);
  }

  // ---- When each default is replaced once ----------------------------------------------------------

  lemma {:induction false} NamesLieInside(usages: seq<TokenUsage>, o: Owner)
    ensures forall h :: h in HolesOf(usages, o) && h.first >= o.stop ==> h.marker == DEFAULT
  {
    if usages != [] { NamesLieInside(usages[..|usages| - 1], o); }
  }

  /** The holes of an owner are apart and lie in the text from the owner's first word on. */
  lemma HolesLie(ws: seq<Word>, o: Owner)
    requires IsOwner(TokensOf(ws), o)
    ensures var hs := HolesIn(TokensOf(ws), o);
      && AllApart(hs) && (forall h :: h in hs ==> IsShort(h) && o.first <= h.first && h.last < |ws|)
      && (o.stop < |ws| ==> !IsInner(hs, o.stop))
  {
    hide IsSound, HolesIn, AllApart;
    var tokens := TokensOf(ws);
    var hs := HolesIn(tokens, o);
    OwnerHolesSound(tokens, o);
    SoundIsApart(tokens, hs);
    Split(ws, o);
    forall h | h in hs ensures o.first <= h.first { assert LiesBehind(tokens, o, h); }
  }

  lemma PartsFall(a: seq<Hole>, b: seq<Hole>)
    requires Fall(a + b)
    ensures Fall(a) && Fall(b)
  {
    var all := a + b;
    forall i, j | 0 <= i < j < |a| ensures a[j].first <= a[i].first { assert all[j].first <= all[i].first; }
    forall i, j | 0 <= i < j < |b| ensures b[j].first <= b[i].first { assert all[|a| + j].first <= all[|a| + i].first; }
  }

  lemma SortedFalls(ws: seq<Word>, o: Owner)
    requires IsOwner(TokensOf(ws), o)
    ensures Fall(InsideIn(ws, o)) && Fall(BehindIn(ws, o))
  {
    hide Sorted, BehindIn, InsideIn, HolesIn;
    Split(ws, o);
    SortedHoles(HolesIn(TokensOf(ws), o));
    PartsFall(BehindIn(ws, o), InsideIn(ws, o));
  }

  lemma InsideIsBefore(ws: seq<Word>, o: Owner)
    requires IsOwner(TokensOf(ws), o) && NoRepeats(InsideIn(ws, o))
    ensures AreBefore(InsideIn(ws, o), HolesIn(TokensOf(ws), o), ws, o.first, o.stop)
  {
    hide BehindIn, InsideIn, HolesIn, AllApart, IsInner;
    HolesLie(ws, o);
    Split(ws, o);
    SortedFalls(ws, o);
    var os := InsideIn(ws, o);
    forall a, b | 0 <= a < b < |os| ensures os[b].last < os[a].first {
      assert os[a] in os && os[b] in os;
      ApartTo(HolesIn(TokensOf(ws), o), os[a], os[b]);
    }
  }

  lemma ApartTo(hs: seq<Hole>, a: Hole, b: Hole)
    requires AllApart(hs) && a in hs && b in hs
    ensures a == b || a.last < b.first || b.last < a.first
  {}

  /** When no hole of the owner is reported twice, its normalized text is its words with a marker for each. */
  lemma NormalizedIsMarked(ws: seq<Word>, rest: string, o: Owner)
    requires Solid(ws) && IsOwner(TokensOf(ws), o) && NoRepeats(InsideIn(ws, o))
    ensures LieIn(TokensOf(ws), Whole(ws, rest))
    ensures NormalizedText(Whole(ws, rest), TokensOf(ws), o)
      == Tidy(Marked(ws, HolesIn(TokensOf(ws), o), o.first, o.stop) + Tail(ws, BehindIn(ws, o), o))
  {
    hide TextOf, Whole, Slice, Place, TokensOf, Start, Splice, Solid, LieIn, Tail, Tidy, BehindIn, InsideIn, NormalizedText, AreBefore, Substituted, Separate, Marked;
    NormalizedByTail(ws, rest, o);
    InsideIsBefore(ws, o);
    SubstitutedIsMarked(ws, rest, HolesIn(TokensOf(ws), o), InsideIn(ws, o), o.first, o.stop);
    var text, rs := Slice(Whole(ws, rest), ws, o.first, o.stop), Placed(TokensOf(ws), InsideIn(ws, o), Start(ws, o.first));
    SpliceIgnoresTail(text, Tail(ws, BehindIn(ws, o), o), rs);
    SpliceIsSubstitution(text, rs);
  }

  // ---- Room behind an owner --------------------------------------------------------------------------

  /** How far behind the end of the owner a hole starts. */
  function Ahead(ws: seq<Word>, o: Owner, h: Hole): nat {
    if o.stop <= h.first < |ws| && Start(ws, o.stop) <= Start(ws, h.first) then Start(ws, h.first) - Start(ws, o.stop) else 0
  }

  /**
   At most one default is found behind the owner, or the first of them, however short, ends
   behind where the markers of all the others reach.
   */
  predicate HasRoom(ws: seq<Word>, bs: seq<Hole>, o: Owner) {
    |bs| > 1 ==>
      var h := bs[|bs| - 1];
      Ahead(ws, o, h) + (h.last - h.first + 1) >= |DEFAULT| * (|bs| - 1)
  }

  /** The markers of all the defaults behind the owner, cut off where the first of these starts. */
  function RoomyEnd(ws: seq<Word>, bs: seq<Hole>, o: Owner): string
    requires bs != []
  {
    Take(Pile(|bs| - 1), Ahead(ws, o, bs[|bs| - 1])) + DEFAULT
  }

  /** Where the replacement of a hole behind the owner starts and ends, seen from the owner's end. */
  lemma PlaceBehind(ws: seq<Word>, o: Owner, h: Hole)
    requires Solid(ws) && o.stop <= h.first <= h.last < |ws|
    ensures var q := Place(TokensOf(ws), h, StartOrEnd(ws, o.stop));
      && q.start == Ahead(ws, o, h) && q.value == h.marker && q.end == End(ws, h.last + 1) - Start(ws, o.stop)
      && q.end - q.start >= h.last - h.first + 1
  {
    hide TextOf, Whole, Place, TokensOf, Solid;
    PlaceOfHole(ws, h, o.stop);
    AtStart(ws, o.stop);
    WordsAreLong(ws, h.first, h.last);
  }

  lemma {:induction false} WordsAreLong(ws: seq<Word>, i: nat, j: nat)
    requires Solid(ws) && i <= j < |ws|
    ensures End(ws, j + 1) - Start(ws, i) >= j - i + 1
    decreases j
  {
    hide TextOf, Whole;
    EndOfOneMore(ws, j);
    if i < j { WordsAreLong(ws, i, j - 1); }
  }

  lemma PilesBehind(ws: seq<Word>, o: Owner)
    requires Solid(ws) && IsOwner(TokensOf(ws), o) && BehindIn(ws, o) != []
    ensures Piles(Placed(TokensOf(ws), BehindIn(ws, o), StartOrEnd(ws, o.stop)))
  {
    hide TextOf, Whole, Solid, BehindIn, InsideIn, TokensOf, Start, StartOrEnd, Place, AllApart, HolesIn;
    var tokens := TokensOf(ws);
    var bs, at := BehindIn(ws, o), StartOrEnd(ws, o.stop);
    var h := bs[|bs| - 1];
    Split(ws, o);
    HolesLie(ws, o);
    SortedFalls(ws, o);
    BehindAreDefaults(ws, o);
    forall k | 0 <= k < |bs| ensures OnPile(Place(tokens, bs[k], at), Place(tokens, h, at)) {
      assert bs[k] in bs && h in bs;
      PlaceBehind(ws, o, bs[k]);
      PlaceBehind(ws, o, h);
      ApartTo(HolesIn(tokens, o), bs[k], h);
      if bs[k] != h { EndThenStart(ws, h.last, bs[k].first); }
    }
  }

  lemma EndThenStart(ws: seq<Word>, i: nat, j: nat)
    requires i < j < |ws|
    ensures End(ws, i + 1) <= Start(ws, j)
  {
    EndsGrow(ws, i + 1, j);
  }

  lemma BehindAreDefaults(ws: seq<Word>, o: Owner)
    requires IsOwner(TokensOf(ws), o)
    ensures forall h :: h in BehindIn(ws, o) ==> h.marker == DEFAULT
  {
    hide BehindIn, InsideIn, HolesOf;
    NamesLieInside(UsagesIn(TokensOf(ws)), o);
    Split(ws, o);
  }

  /** With room the tail does not depend on how long the defaults are. */
  lemma RoomyTail(ws: seq<Word>, o: Owner)
    requires Solid(ws) && IsOwner(TokensOf(ws), o) && BehindIn(ws, o) != []
    requires HasRoom(ws, BehindIn(ws, o), o)
    ensures Tail(ws, BehindIn(ws, o), o) == RoomyEnd(ws, BehindIn(ws, o), o)
  {
    hide TextOf, Whole, Solid, BehindIn, TokensOf, StartOrEnd, Place, HolesIn, Ahead, Splice, Piles, IsSound;
    var bs := BehindIn(ws, o);
    var h := bs[|bs| - 1];
    assert h in bs;
    HolesLie(ws, o);
    Split(ws, o);
    PilesBehind(ws, o);
    PlaceBehind(ws, o, h);
    var rs := Placed(TokensOf(ws), bs, StartOrEnd(ws, o.stop));
    assert IsShort(h);
    RoomyPile(rs, 0);
    assert rs[0..] == rs;
  }
}
