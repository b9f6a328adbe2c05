/**
 The other half: when something in an owner is reported twice, or there is no room for the
 defaults behind it, there are twins that the normalized text of
 scripts/release-safety-config-diff.ts does tell apart.
 */
module OwnerSamples {
  import opened Options
  import opened JsText
  import opened Sequences
  import opened Sorting
  import opened OwnerText
  import opened SourceWords
  import opened ConfigUsages
  import opened UsageTwins
  import opened OwnerHoles
  import opened MarkedText
  import opened OwnerTails
  import opened OwnerTwins
  import L = Lexer

  // ---- Samples ----------------------------------------------------------------------------------

  function Ones(n: nat): (r: string)
    ensures |r| == n
  {
    if n == 0 then [] else Ones(n - 1) + "1"
  }

  /** The default that holds token `k`, if one does. */
  function DefaultAt(hs: seq<Hole>, k: nat): (r: Option<Hole>)
    ensures r.Some? ==> r.value in hs && Holds(r.value, k) && r.value.marker == DEFAULT
    ensures r.None? ==> forall h :: h in hs && Holds(h, k) ==> h.marker != DEFAULT
  {
    if hs == [] then None
    else if Holds(hs[0], k) && hs[0].marker == DEFAULT then Some(hs[0])
    else DefaultAt(hs[1..], k)
  }

  /** A number of `n` digits in place of a default; a sign stays a sign. */
  function SampleWord(w: Word, h: Hole, k: nat, n: nat): Word {
    if k < h.last then Word(w.gap, "-", L.Operator, "-", w.depth)
    else Word(if k == h.first then w.gap else [], Ones(n), L.Number, Ones(n), w.depth)
  }

  /** One digit in place of every default, but `n` in place of `t`. */
  function SampleAt(ws: seq<Word>, hs: seq<Hole>, t: Hole, n: nat, k: nat): Word
    requires k < |ws|
  {
    match DefaultAt(hs, k)
    case None => ws[k]
    case Some(h) => SampleWord(ws[k], h, k, if h == t then n else 1)
  }

  function Sample(ws: seq<Word>, hs: seq<Hole>, t: Hole, n: nat): (r: seq<Word>)
    ensures |r| == |ws|
  {
    seq(|ws|, k requires 0 <= k < |ws| => SampleAt(ws, hs, t, n, k))
  }

  /** A sampled word may stand for the token of a default. */
  lemma SampleStandsFor(ws: seq<Word>, xs: seq<Word>, h: Hole, k: nat, n: nat)
    requires k < |ws| == |xs| && xs[k] == SampleWord(ws[k], h, k, n)
    requires IsSound(TokensOf(ws), h) && Holds(h, k) && h.marker == DEFAULT
    ensures AlikeAt(TokensOf(ws), TokensOf(xs), k)
  {
    hide TextOf, Whole, Ones;
    assert |ENV| != |DEFAULT|;
  }

  lemma UnchangedIsAlike(ws: seq<Word>, xs: seq<Word>, k: nat)
    requires k < |ws| == |xs| && xs[k] == ws[k]
    ensures AlikeAt(TokensOf(ws), TokensOf(xs), k)
  {
    hide TextOf, Whole;
  }

  lemma SampleIsTwin(ws: seq<Word>, o: Owner, t: Hole, n: nat)
    requires Solid(ws) && IsOwner(TokensOf(ws), o) && n > 0
    ensures AreTwins(ws, Sample(ws, HolesIn(TokensOf(ws), o), t, n), HolesIn(TokensOf(ws), o))
  {
    hide TextOf, Whole, HolesIn, TokensOf, IsSound, AlikeAt, Ones;
    var tokens := TokensOf(ws);
    var hs := HolesIn(tokens, o);
    var xs := Sample(ws, hs, t, n);
    OwnerHolesSound(tokens, o);
    forall k | 0 <= k < |ws| ensures AlikeAt(tokens, TokensOf(xs), k) && xs[k].text != [] && SameOutside(ws, xs, hs, k) {
      var h := DefaultAt(hs, k);
      if h.Some? {
        SampleStandsFor(ws, xs, h.value, k, if h.value == t then n else 1);
        assert InHole(hs, k);
        assert k > h.value.first ==> IsInner(hs, k);
      } else {
        UnchangedIsAlike(ws, xs, k);
      }
    }
  }

  /** How many characters a hole takes up. */
  function Width(ws: seq<Word>, h: Hole): int {
    if h.first <= h.last < |ws| then End(ws, h.last + 1) - Start(ws, h.first) else 0
  }

  lemma DefaultOfHole(hs: seq<Hole>, h: Hole, k: nat)
    requires AllApart(hs) && h in hs && Holds(h, k) && h.marker == DEFAULT
    ensures DefaultAt(hs, k) == Some(h)
  {}

  /** The width of a sampled default is its number of digits and its sign. */
  lemma SampleWidth(ws: seq<Word>, hs: seq<Hole>, t: Hole, n: nat, h: Hole)
    requires AllApart(hs) && h in hs && IsShort(h) && h.last < |ws| && h.marker == DEFAULT
    ensures Width(Sample(ws, hs, t, n), h) == h.last - h.first + (if h == t then n else 1)
  {
    hide TextOf, Whole, AllApart, DefaultAt, Ones;
    var xs := Sample(ws, hs, t, n);
    DefaultOfHole(hs, h, h.last);
    EndOfOneMore(xs, h.last);
    if h.first < h.last {
      DefaultOfHole(hs, h, h.first);
      EndOfOneMore(xs, h.first);
    }
  }

  // ---- The shape of an owner's text -----------------------------------------------------------------

  /** The distinct holes, from left to right. */
  function Blocks(ss: seq<Hole>): seq<Hole>
    decreases |ss|
  {
    if ss == [] then [] else Blocks(ss[Alikes(ss)..]) + [ss[0]]
  }

  /** How often each of them is reported. */
  function Runs(ss: seq<Hole>): (r: seq<nat>)
    ensures |r| == |Blocks(ss)|
    decreases |ss|
  {
    if ss == [] then [] else Runs(ss[Alikes(ss)..]) + [Alikes(ss)]
  }

  /** The sorted holes, repeats included, that start before word `j`. */
  ghost predicate AreThose(ss: seq<Hole>, hs: seq<Hole>, ws: seq<Word>, i: nat, j: nat) {
    && Fall(ss) && AllApart(hs) && i <= j <= |ws| && i < |ws| && (j < |ws| ==> !IsInner(hs, j))
    && (forall h :: h in ss <==> h in hs && h.first < j)
    && (forall h :: h in hs ==> IsShort(h) && i <= h.first && h.last < |ws|)
  }

  lemma ThoseBefore(ss: seq<Hole>, hs: seq<Hole>, ws: seq<Word>, i: nat, j: nat)
    requires AreThose(ss, hs, ws, i, j) && ss != []
    ensures AreThose(ss[Alikes(ss)..], hs, ws, i, ss[0].first)
    ensures ss[0] in hs && i <= ss[0].first <= ss[0].last < j
    ensures var rest := ss[Alikes(ss)..]; rest != [] ==> rest[0] in hs && rest[0].last < ss[0].first
  {
    hide Alikes, AllApart, IsInner, InHole, Fall;
    var h, rest := ss[0], ss[Alikes(ss)..];
    assert h in ss;
    EdgesAreShown(hs, h);
    if h.last == j { InnerAt(hs, h); }
    RestFalls(ss, hs);
    if rest != [] {
      assert rest[0] in rest;
      ApartTo(hs, rest[0], h);
    }
  }

  lemma InnerAt(hs: seq<Hole>, h: Hole)
    requires h in hs && h.first < h.last
    ensures IsInner(hs, h.last)
  {
    assert Holds(h, h.last);
  }

  lemma RestFalls(ss: seq<Hole>, hs: seq<Hole>)
    requires Fall(ss) && AllApart(hs) && (forall h :: h in ss ==> h in hs && IsShort(h)) && ss != []
    ensures Fall(ss[Alikes(ss)..])
    ensures forall g :: g in ss[Alikes(ss)..] <==> g in ss && g.first < ss[0].first
  {
    hide Alikes, AllApart, IsShort, Fall;
    var m := Alikes(ss);
    SuffixFalls(ss, m);
    forall k | m <= k < |ss| ensures ss[k].first < ss[0].first { AfterAlikes(ss, hs, k); }
    AlikesAreAlike(ss);
    SuffixHolds(ss, m);
  }

  lemma AlikesAreAlike(ss: seq<Hole>)
    requires ss != []
    ensures forall k :: 0 <= k < Alikes(ss) ==> ss[k] == ss[0]
  {
    hide Alikes;
  }

  lemma SuffixHolds(ss: seq<Hole>, m: nat)
    requires m <= |ss| && (forall k :: 0 <= k < m ==> ss[k] == ss[0]) && forall k :: m <= k < |ss| ==> ss[k].first < ss[0].first
    ensures forall g :: g in ss[m..] <==> g in ss && g.first < ss[0].first
  {
    forall g | g in ss && g.first < ss[0].first ensures g in ss[m..] {
      var k :| 0 <= k < |ss| && ss[k] == g;
      assert ss[m..][k - m] == g;
    }
  }

  lemma SuffixFalls(ss: seq<Hole>, m: nat)
    requires Fall(ss) && m <= |ss|
    ensures Fall(ss[m..])
  {
    forall i, j | 0 <= i < j < |ss| - m ensures ss[m..][j].first <= ss[m..][i].first { FallsTo(ss, m + i, m + j); }
  }

  /** Behind the repeats of the first hole come holes that lie further to the left. */
  lemma AfterAlikes(ss: seq<Hole>, hs: seq<Hole>, k: nat)
    requires Fall(ss) && AllApart(hs) && (forall h :: h in ss ==> h in hs && IsShort(h)) && ss != []
    requires Alikes(ss) <= k < |ss|
    ensures ss[k].first < ss[0].first
  {
    hide Alikes, AllApart, Fall;
    var m := Alikes(ss);
    assert ss[m] in ss && ss[0] in ss;
    ApartTo(hs, ss[m], ss[0]);
    FallsTo(ss, 0, m);
    FallsTo(ss, m, k);
  }

  lemma FallsTo(ss: seq<Hole>, i: nat, j: nat)
    requires Fall(ss) && i <= j < |ss|
    ensures ss[j].first <= ss[i].first
  {}

  lemma PlaceTells(ws: seq<Word>, hs: seq<Hole>, i: nat, a: Hole, b: Hole)
    requires Solid(ws) && AllApart(hs) && a in hs && b in hs && i <= a.first <= a.last < |ws| && i <= b.first <= b.last < |ws|
    ensures Place(TokensOf(ws), a, Start(ws, i)) == Place(TokensOf(ws), b, Start(ws, i)) <==> a == b
    ensures a.last < b.first ==> Place(TokensOf(ws), a, Start(ws, i)).end <= Place(TokensOf(ws), b, Start(ws, i)).start
  {
    hide TextOf, Whole, Solid, Place, TokensOf, AllApart, Start, End;
    PlaceOfHole(ws, a, i);
    PlaceOfHole(ws, b, i);
    ApartTo(hs, a, b);
    if a.last < b.first { EndThenStart(ws, a.last, b.first); }
    if b.last < a.first { EndThenStart(ws, b.last, a.first); }
  }

  lemma {:induction false} AlikesPlaced(ws: seq<Word>, hs: seq<Hole>, ss: seq<Hole>, i: nat)
    requires Solid(ws) && AllApart(hs) && ss != [] && i < |ws|
    requires forall h :: h in ss ==> h in hs && i <= h.first <= h.last < |ws|
    ensures Alikes(Placed(TokensOf(ws), ss, Start(ws, i))) == Alikes(ss)
  {
    hide TextOf, Whole, Solid, Place, TokensOf, AllApart, Start;
    if |ss| > 1 {
      var rs := Placed(TokensOf(ws), ss, Start(ws, i));
      assert ss[0] in ss && ss[1] in ss;
      PlaceTells(ws, hs, i, ss[1], ss[0]);
      assert rs[0] == Place(TokensOf(ws), ss[0], Start(ws, i)) && rs[1] == Place(TokensOf(ws), ss[1], Start(ws, i));
      assert rs[1..] == Placed(TokensOf(ws), ss[1..], Start(ws, i));
      AlikesPlaced(ws, hs, ss[1..], i);
    }
  }

  /** Where the text behind the last hole starts. */
  function FrontOf(ws: seq<Word>, ss: seq<Hole>, i: nat): nat
    requires i < |ws| && (ss != [] ==> ss[0].last < |ws|)
  {
    if ss == [] then Start(ws, i) else End(ws, ss[0].last + 1)
  }

  /** The text between the last hole and word `j`. */
  function Part(source: string, ws: seq<Word>, ss: seq<Hole>, i: nat, j: nat): string
    requires i < |ws| && j <= |ws| && (ss != [] ==> ss[0].last < |ws|)
  {
    if FrontOf(ws, ss, i) <= StartOrEnd(ws, j) <= |source| then source[FrontOf(ws, ss, i)..StartOrEnd(ws, j)] else []
  }

  lemma PartBounds(ws: seq<Word>, rest: string, hs: seq<Hole>, ss: seq<Hole>, i: nat, j: nat)
    requires AreThose(ss, hs, ws, i, j)
    ensures ss != [] ==> ss[0].last < |ws|
    ensures Start(ws, i) <= FrontOf(ws, ss, i) <= StartOrEnd(ws, j) <= |Whole(ws, rest)|
  {
    hide TextOf, Whole, Alikes, AllApart, Fall, IsInner, Start, StartOrEnd;
    if ss == [] {
      StartsInText(ws, rest, i, j);
    } else {
      ThoseBefore(ss, hs, ws, i, j);
      StartsInText(ws, rest, ss[0].last, j);
      StartsInText(ws, rest, i, ss[0].last);
      AtStart(ws, ss[0].last);
    }
  }

  /** No hole lies between the last of them and word `j`. */
  lemma NoneBehindLast(ws: seq<Word>, hs: seq<Hole>, ss: seq<Hole>, i: nat, j: nat)
    requires AreThose(ss, hs, ws, i, j)
    ensures forall k :: (if ss == [] then i else ss[0].last + 1) <= k < j ==> !InHole(hs, k) && !IsInner(hs, k)
  {
    forall k, g | (if ss == [] then i else ss[0].last + 1) <= k < j && g in hs ensures !Holds(g, k) {
      if g.first < j {
        assert g in ss;
        var n :| 0 <= n < |ss| && ss[n] == g;
        assert ss[0] in ss && ss[n].first <= ss[0].first;
        ApartTo(hs, g, ss[0]);
      }
    }
  }

  lemma PartIs(source: string, ws: seq<Word>, ss: seq<Hole>, i: nat, j: nat)
    requires i < |ws| && j <= |ws| && (ss != [] ==> ss[0].last < |ws|)
    requires FrontOf(ws, ss, i) <= StartOrEnd(ws, j) <= |source|
    ensures ss == [] ==> Part(source, ws, ss, i, j) == Slice(source, ws, i, j)
    ensures ss != [] ==> Part(source, ws, ss, i, j) == source[End(ws, ss[0].last + 1)..StartOrEnd(ws, j)]
  {
    hide TextOf, Whole, Start, StartOrEnd, End;
  }

  lemma SamePart(ws: seq<Word>, xs: seq<Word>, rest: string, hs: seq<Hole>, ss: seq<Hole>, i: nat, j: nat)
    requires AreThose(ss, hs, ws, i, j) && |ws| == |xs| && (forall k :: 0 <= k < |ws| ==> SameOutside(ws, xs, hs, k))
    ensures ss != [] ==> ss[0].last < |ws|
    ensures Part(Whole(ws, rest), ws, ss, i, j) == Part(Whole(xs, rest), xs, ss, i, j)
  {
    hide TextOf, Whole, AllApart, Fall, IsInner, InHole, Start, StartOrEnd, End, SameOutside, Between, Marked, Part, FrontOf, Slice;
    PartBounds(ws, rest, hs, ss, i, j);
    PartBounds(xs, rest, hs, ss, i, j);
    NoneBehindLast(ws, hs, ss, i, j);
    PartIs(Whole(ws, rest), ws, ss, i, j);
    PartIs(Whole(xs, rest), xs, ss, i, j);
    if ss == [] {
      SamePlain(ws, xs, rest, hs, i, j);
    } else {
      ThoseBefore(ss, hs, ws, i, j);
      SliceBetween(ws, rest, ss[0].last + 1, j);
      SliceBetween(xs, rest, ss[0].last + 1, j);
      SameBetween(ws, xs, hs, ss[0].last + 1, j);
    }
  }

  /** Where there are no holes twins are the same. */
  lemma SamePlain(ws: seq<Word>, xs: seq<Word>, rest: string, hs: seq<Hole>, i: nat, j: nat)
    requires i <= j <= |ws| == |xs| && i < |ws| && (forall k :: 0 <= k < |ws| ==> SameOutside(ws, xs, hs, k))
    requires (forall k :: i <= k < j ==> !InHole(hs, k) && !IsInner(hs, k)) && (j < |ws| ==> !IsInner(hs, j))
    ensures Slice(Whole(ws, rest), ws, i, j) == Slice(Whole(xs, rest), xs, i, j)
  {
    hide TextOf, Whole, IsInner, InHole, Start, StartOrEnd, SameOutside, Marked, Slice;
    PlainIsMarked(ws, rest, hs, i, i, j);
    PlainIsMarked(xs, rest, hs, i, i, j);
    NoneMarked(ws, hs, i);
    NoneMarked(xs, hs, i);
    SameMarked(ws, xs, hs, i, j);
    NothingInFront(Slice(Whole(ws, rest), ws, i, j));
    NothingInFront(Slice(Whole(xs, rest), xs, i, j));
  }

  lemma NothingInFront(s: string)
    ensures [] + s == s
  {}

  /** The pieces of an owner's text, by words. */
  function ShapeByWords(source: string, ws: seq<Word>, ss: seq<Hole>, i: nat): (r: seq<Piece>)
    requires i < |ws| && forall h :: h in ss ==> h.last < |ws|
    ensures |r| == |Blocks(ss)|
    decreases |ss|
  {
    if ss == [] then []
    else
      var h, rest := ss[0], ss[Alikes(ss)..];
      assert h in ss && forall g :: g in rest ==> g in ss;
      ShapeByWords(source, ws, rest, i) + [Piece(Part(source, ws, rest, i, if h.first < |ws| then h.first else 0), h.marker, Alikes(ss))]
  }

  lemma {:induction false} PiecesOfBlocks(source: string, ws: seq<Word>, ss: seq<Hole>, i: nat)
    requires i < |ws| && forall h :: h in ss ==> h.last < |ws|
    ensures forall k :: 0 <= k < |Blocks(ss)| ==>
      var p := ShapeByWords(source, ws, ss, i)[k]; p.marker == Blocks(ss)[k].marker && p.copies == Runs(ss)[k]
    decreases |ss|
  {
    hide Part, Alikes;
    if ss != [] { PiecesOfBlocks(source, ws, ss[Alikes(ss)..], i); }
  }

  lemma {:induction false} SameShape(ws: seq<Word>, xs: seq<Word>, rest: string, hs: seq<Hole>, ss: seq<Hole>, i: nat, j: nat)
    requires AreThose(ss, hs, ws, i, j) && |ws| == |xs| && (forall k :: 0 <= k < |ws| ==> SameOutside(ws, xs, hs, k))
    ensures ShapeByWords(Whole(ws, rest), ws, ss, i) == ShapeByWords(Whole(xs, rest), xs, ss, i)
    decreases |ss|
  {
    hide TextOf, Whole, AllApart, Fall, IsInner, SameOutside, Part, Alikes;
    if ss != [] {
      ThoseBefore(ss, hs, ws, i, j);
      var before := ss[Alikes(ss)..];
      SameShape(ws, xs, rest, hs, before, i, ss[0].first);
      SamePart(ws, xs, rest, hs, before, i, ss[0].first);
    }
  }

  // ---- The text by its pieces -----------------------------------------------------------------------

  /** `text` starts with the words from `i` up to `j`. */
  predicate StartsAs(text: string, source: string, ws: seq<Word>, i: nat, j: nat)
    requires i < |ws| && j <= |ws|
  {
    && Start(ws, i) <= StartOrEnd(ws, j) <= |source| && StartOrEnd(ws, j) - Start(ws, i) <= |text|
    && text[..StartOrEnd(ws, j) - Start(ws, i)] == source[Start(ws, i)..StartOrEnd(ws, j)]
  }

  lemma AlikeFurther(text: string, source: string, a: nat, m: nat, n: nat)
    requires m <= n <= |text| && a + n <= |source| && text[..n] == source[a..a + n]
    ensures text[..m] == source[a..a + m] && text[m..n] == source[a + m..a + n]
  {
    assert text[..m] == text[..n][..m] && text[m..n] == text[..n][m..];
    assert source[a..a + m] == source[a..a + n][..m] && source[a + m..a + n] == source[a..a + n][m..];
  }

  lemma StartsAsLess(text: string, source: string, ws: seq<Word>, i: nat, j: nat, n: nat)
    requires i < |ws| && n <= |ws| && j <= |ws| && StartsAs(text, source, ws, i, n)
    requires Start(ws, i) <= StartOrEnd(ws, j) <= StartOrEnd(ws, n)
    ensures StartsAs(text, source, ws, i, j)
  {
    hide TextOf, Whole, Start, StartOrEnd;
    var a := Start(ws, i);
    AlikeFurther(text, source, a, StartOrEnd(ws, j) - a, StartOrEnd(ws, n) - a);
  }

  /** What stands between the last hole and word `j` in a text that starts as the words do. */
  lemma PartInText(text: string, source: string, ws: seq<Word>, ss: seq<Hole>, i: nat, j: nat)
    requires i < |ws| && j <= |ws| && (ss != [] ==> ss[0].last < |ws|) && StartsAs(text, source, ws, i, j)
    requires Start(ws, i) <= FrontOf(ws, ss, i) <= StartOrEnd(ws, j)
    ensures text[FrontOf(ws, ss, i) - Start(ws, i)..StartOrEnd(ws, j) - Start(ws, i)] == Part(source, ws, ss, i, j)
  {
    hide TextOf, Whole, Start, StartOrEnd, FrontOf;
    var a := Start(ws, i);
    AlikeFurther(text, source, a, FrontOf(ws, ss, i) - a, StartOrEnd(ws, j) - a);
  }

  lemma FrontEndPlaced(ws: seq<Word>, ss: seq<Hole>, i: nat)
    requires Solid(ws) && i < |ws| && (ss != [] ==> i <= ss[0].first <= ss[0].last < |ws|)
    ensures FrontOf(ws, ss, i) >= Start(ws, i)
    ensures FrontEnd(Placed(TokensOf(ws), ss, Start(ws, i))) == FrontOf(ws, ss, i) - Start(ws, i)
  {
    hide TextOf, Whole, Start, Place, TokensOf, Solid;
    if ss != [] { PlaceOfHole(ws, ss[0], i); }
  }

  lemma PlacedInBlocks(ws: seq<Word>, text: string, hs: seq<Hole>, ss: seq<Hole>, i: nat, j: nat)
    requires Solid(ws) && AreThose(ss, hs, ws, i, j) && StartOrEnd(ws, j) - Start(ws, i) <= |text|
    ensures InBlocks(text, Placed(TokensOf(ws), ss, Start(ws, i)))
  {
    hide TextOf, Whole, Place, TokensOf, Solid, AllApart, IsInner, StartOrEnd, End, Start;
    var from := Start(ws, i);
    forall k | 0 <= k < |ss| ensures InRange(text, Place(TokensOf(ws), ss[k], from)) {
      assert ss[k] in ss;
      PlaceOfHole(ws, ss[k], i);
      EdgeOfHole(hs, ss[k], j, |ws|);
      StartsInText(ws, [], ss[k].last, j);
    }
    forall a, b | 0 <= a < b < |ss|
      ensures var x, y := Place(TokensOf(ws), ss[a], from), Place(TokensOf(ws), ss[b], from); x == y || y.end <= x.start
    {
      assert ss[a] in ss && ss[b] in ss;
      ApartTo(hs, ss[a], ss[b]);
      PlaceTells(ws, hs, i, ss[b], ss[a]);
    }
  }

  lemma EdgeOfHole(hs: seq<Hole>, h: Hole, j: nat, n: nat)
    requires h in hs && IsShort(h) && h.first < j && h.last < n && (j < n ==> !IsInner(hs, j))
    ensures h.last < j
  {
    if h.last == j { InnerAt(hs, h); }
  }

  /** The text has the shape of its words and values as wide as the holes. */
  predicate IsShaped(ws: seq<Word>, source: string, text: string, ss: seq<Hole>, i: nat)
    requires i < |ws| && forall h :: h in ss ==> h.last < |ws|
  {
    var rs := Placed(TokensOf(ws), ss, Start(ws, i));
    && InBlocks(text, rs) && ShapeOf(text, rs) == ShapeByWords(source, ws, ss, i)
    && forall k :: 0 <= k < |Blocks(ss)| ==> |ValuesOf(text, rs)[k]| == Width(ws, Blocks(ss)[k])
  }

  lemma NothingShaped(ws: seq<Word>, source: string, text: string, i: nat)
    requires i < |ws|
    ensures IsShaped(ws, source, text, [], i)
  {
    hide TextOf, Whole, Start;
    assert Placed(TokensOf(ws), [], Start(ws, i)) == [];
  }

  lemma BlocksLast(ws: seq<Word>, source: string, ss: seq<Hole>, i: nat)
    requires i < |ws| && ss != [] && forall h :: h in ss ==> h.first <= h.last < |ws|
    ensures var before := ss[Alikes(ss)..];
      && (forall h :: h in before ==> h in ss) && ss[0] in ss && Blocks(ss) == Blocks(before) + [ss[0]]
      && ShapeByWords(source, ws, ss, i)
        == ShapeByWords(source, ws, before, i) + [Piece(Part(source, ws, before, i, ss[0].first), ss[0].marker, Alikes(ss))]
  {
    hide Part, Alikes;
  }

  lemma OneMoreShaped(ws: seq<Word>, source: string, text: string, ss: seq<Hole>, i: nat)
    requires Solid(ws) && i < |ws| && ss != [] && forall h :: h in ss ==> i <= h.first <= h.last < |ws|
    requires var rs := Placed(TokensOf(ws), ss, Start(ws, i)); InBlocks(text, rs) && Alikes(rs) == Alikes(ss)
    requires IsShaped(ws, source, text, ss[Alikes(ss)..], i)
    requires StartsAs(text, source, ws, i, ss[0].first) && FrontOf(ws, ss[Alikes(ss)..], i) <= Start(ws, ss[0].first)
    ensures IsShaped(ws, source, text, ss, i)
  {
    hide TextOf, Whole, Place, TokensOf, Solid, StartsAs, Part, Alikes, InBlocks, Start, FrontOf, FrontEnd, Width, Blocks, ShapeOf, ValuesOf, ShapeByWords;
    var h, before := ss[0], ss[Alikes(ss)..];
    var rs := Placed(TokensOf(ws), ss, Start(ws, i));
    BlocksLast(ws, source, ss, i);
    if before != [] { assert before[0] in ss; }
    assert rs[Alikes(ss)..] == Placed(TokensOf(ws), before, Start(ws, i));
    ShapeLast(text, rs);
    FrontEndPlaced(ws, before, i);
    AtStart(ws, h.first);
    PartInText(text, source, ws, before, i, h.first);
    PlaceOfHole(ws, h, i);
    WidthOf(ws, h);
  }

  lemma {:induction false} ShapeOfWords(ws: seq<Word>, rest: string, text: string, hs: seq<Hole>, ss: seq<Hole>, i: nat, j: nat)
    requires Solid(ws) && AreThose(ss, hs, ws, i, j) && StartsAs(text, Whole(ws, rest), ws, i, j)
    ensures (forall h :: h in ss ==> h.last < |ws|) && IsShaped(ws, Whole(ws, rest), text, ss, i)
    decreases |ss|
  {
    hide TextOf, Whole, Place, TokensOf, Solid, AreThose, StartsAs, Alikes, Start, StartOrEnd, FrontOf, IsShaped, InBlocks;
    ThoseFacts(ss, hs, ws, i, j);
    if ss == [] {
      NothingShaped(ws, Whole(ws, rest), text, i);
    } else {
      StartsFacts(text, Whole(ws, rest), ws, i, j);
      PlacedInBlocks(ws, text, hs, ss, i, j);
      ThoseBefore(ss, hs, ws, i, j);
      var h, before := ss[0], ss[Alikes(ss)..];
      PartBounds(ws, rest, hs, before, i, h.first);
      StartsInText(ws, rest, h.first, j);
      AtStart(ws, h.first);
      StartsAsLess(text, Whole(ws, rest), ws, i, h.first, j);
      ShapeOfWords(ws, rest, text, hs, before, i, h.first);
      AlikesPlaced(ws, hs, ss, i);
      OneMoreShaped(ws, Whole(ws, rest), text, ss, i);
    }
  }

  lemma ThoseFacts(ss: seq<Hole>, hs: seq<Hole>, ws: seq<Word>, i: nat, j: nat)
    requires AreThose(ss, hs, ws, i, j)
    ensures i <= j <= |ws| && i < |ws| && AllApart(hs)
    ensures forall h :: h in ss ==> h in hs && i <= h.first <= h.last < |ws|
    ensures forall h :: h in hs ==> IsShort(h)
  {}

  lemma StartsFacts(text: string, source: string, ws: seq<Word>, i: nat, j: nat)
    requires i < |ws| && j <= |ws| && StartsAs(text, source, ws, i, j)
    ensures Start(ws, i) <= StartOrEnd(ws, j) <= |source| && StartOrEnd(ws, j) - Start(ws, i) <= |text|
  {}

  lemma WidthOf(ws: seq<Word>, h: Hole)
    requires h.first <= h.last < |ws|
    ensures Width(ws, h) == End(ws, h.last + 1) - Start(ws, h.first)
  {}

  // ---- The normalized text by its pieces ------------------------------------------------------------

  lemma InsideAreThose(ws: seq<Word>, o: Owner)
    requires IsOwner(TokensOf(ws), o)
    ensures AreThose(InsideIn(ws, o), HolesIn(TokensOf(ws), o), ws, o.first, o.stop)
  {
    hide BehindIn, InsideIn, HolesIn, AllApart, Fall, IsInner;
    HolesLie(ws, o);
    Split(ws, o);
    SortedFalls(ws, o);
  }

  lemma SliceStartsAs(s: string, ws: seq<Word>, i: nat, j: nat, tail: string)
    requires j <= |ws| && i < |ws| && Start(ws, i) <= StartOrEnd(ws, j) <= |s|
    ensures StartsAs(Slice(s, ws, i, j) + tail, s, ws, i, j)
  {
    hide TextOf, Whole, Start, StartOrEnd;
    var slice := Slice(s, ws, i, j);
    assert (slice + tail)[..|slice|] == slice;
  }

  /** What stands behind the last hole of the owner. */
  lemma BehindLastHole(ws: seq<Word>, s: string, ss: seq<Hole>, i: nat, j: nat, tail: string)
    requires i < |ws| && j <= |ws| && (ss != [] ==> i <= ss[0].first <= ss[0].last < |ws|) && Solid(ws)
    requires Start(ws, i) <= FrontOf(ws, ss, i) <= StartOrEnd(ws, j) <= |s|
    ensures var n := FrontEnd(Placed(TokensOf(ws), ss, Start(ws, i)));
      n <= |Slice(s, ws, i, j) + tail| && (Slice(s, ws, i, j) + tail)[n..] == Part(s, ws, ss, i, j) + tail
  {
    hide TextOf, Whole, Start, StartOrEnd, FrontOf, FrontEnd, Place, TokensOf, Solid, StartsAs;
    FrontEndPlaced(ws, ss, i);
    var slice := Slice(s, ws, i, j);
    assert slice[FrontOf(ws, ss, i) - Start(ws, i)..] == Part(s, ws, ss, i, j);
  }

  lemma NormalizedByShape(ws: seq<Word>, rest: string, o: Owner) returns (values: seq<string>)
    requires Solid(ws) && IsOwner(TokensOf(ws), o)
    ensures LieIn(TokensOf(ws), Whole(ws, rest))
    ensures var os := InsideIn(ws, o);
      && (forall h :: h in os ==> h.last < |ws|) && |values| == |Blocks(os)|
      && (forall k :: 0 <= k < |Blocks(os)| ==> |values[k]| == Width(ws, Blocks(os)[k]))
      && NormalizedText(Whole(ws, rest), TokensOf(ws), o)
        == Tidy(Spliced(ShapeByWords(Whole(ws, rest), ws, os, o.first), values,
                        Part(Whole(ws, rest), ws, os, o.first, o.stop) + Tail(ws, BehindIn(ws, o), o)))
  {
    hide TextOf, Whole, Slice, Place, TokensOf, Start, StartOrEnd, Splice, Spliced, Solid, LieIn, Tail, Tidy, BehindIn, InsideIn, NormalizedText,
      HolesIn, AreThose, StartsAs, InBlocks, Part, FrontOf, FrontEnd, ShapeByWords, Blocks, Width;
    var s, os, tail, i, j := Whole(ws, rest), InsideIn(ws, o), Tail(ws, BehindIn(ws, o), o), o.first, o.stop;
    var hs := HolesIn(TokensOf(ws), o);
    NormalizedByTail(ws, rest, o);
    InsideAreThose(ws, o);
    ThoseFacts(os, hs, ws, i, j);
    PartBounds(ws, rest, hs, os, i, j);
    if os != [] { assert os[0] in os; }
    SliceStartsAs(s, ws, i, j, tail);
    var text := Slice(s, ws, i, j) + tail;
    ShapeOfWords(ws, rest, text, hs, os, i, j);
    var rs := Placed(TokensOf(ws), os, Start(ws, i));
    BehindLastHole(ws, s, os, i, j, tail);
    values := ValuesOf(text, rs);
    SpliceByShape(text, rs);
  }

  // ---- Repeats ----------------------------------------------------------------------------------------

  lemma {:induction false} NamesOfUsages(tokens: Tokens, references: seq<Reference>, o: Owner)
    requires forall r :: r in references ==> InList(tokens, r)
    ensures forall h :: h in HolesOf(Usages(tokens, references), o) && h.marker == ENV ==>
      exists k :: 0 <= k < |references| && references[k].name == h.first
  {
    hide UsageOf, InList;
    if references != [] {
      var n := |references| - 1;
      NamesOfUsages(tokens, references[..n], o);
      UsageName(tokens, references[n]);
      assert |ENV| != |DEFAULT|;
      forall h | h in HolesOf(Usages(tokens, references), o) && h.marker == ENV
        ensures exists k :: 0 <= k < |references| && references[k].name == h.first
      {
        if h in HolesOf(Usages(tokens, references[..n]), o) {
          var k :| 0 <= k < n && references[..n][k].name == h.first;
          assert references[k].name == h.first;
        } else {
          assert references[n].name == h.first;
        }
      }
    }
  }

  lemma UsageName(tokens: Tokens, r: Reference)
    requires InList(tokens, r)
    ensures UsageOf(tokens, r).name == r.name
  {}

  predicate NamesOnce(hs: seq<Hole>) { forall h :: h in hs && h.marker == ENV ==> multiset(hs)[h] == 1 }

  lemma {:induction false} NamesAreOnce(tokens: Tokens, references: seq<Reference>, o: Owner)
    requires NamesDiffer(references) && forall r :: r in references ==> InList(tokens, r)
    ensures NamesOnce(HolesOf(Usages(tokens, references), o))
  {
    hide UsageOf, InList, NamesOnce, HolesOfUsage;
    if references == [] {
      NothingTwice();
    } else {
      var n := |references| - 1;
      var front, u := HolesOf(Usages(tokens, references[..n]), o), UsageOf(tokens, references[n]);
      NamesAreOnce(tokens, references[..n], o);
      NamesOfUsages(tokens, references[..n], o);
      UsageName(tokens, references[n]);
      OneMoreUsage(front, u);
      assert front + [] == front;
    }
  }

  lemma NothingTwice()
    ensures NamesOnce([])
  {}

  lemma OneMoreUsage(front: seq<Hole>, u: TokenUsage)
    requires NamesOnce(front) && forall h :: h in front && h.marker == ENV ==> h.first != u.name
    ensures NamesOnce(front + HolesOfUsage(u))
  {
    assert |ENV| != |DEFAULT|;
    forall h | h in front + HolesOfUsage(u) && h.marker == ENV ensures multiset(front + HolesOfUsage(u))[h] == 1 {
      assert multiset(front + HolesOfUsage(u)) == multiset(front) + multiset(HolesOfUsage(u));
      assert h in front ==> h !in HolesOfUsage(u);
    }
  }

  /** Only defaults are reported more than once. */
  lemma InsideNamesOnce(ws: seq<Word>, o: Owner)
    requires IsOwner(TokensOf(ws), o)
    ensures NamesOnce(InsideIn(ws, o))
  {
    hide References, HolesOf, BehindOwner, InOwner, Sorted, Usages;
    var tokens := TokensOf(ws);
    ReferencesDiffer(tokens, |tokens|);
    ReferencesInList(tokens, |tokens|);
    NamesAreOnce(tokens, References(tokens, |tokens|), o);
    Split(ws, o);
    SortedCounts(HolesIn(tokens, o));
    PartOnce(BehindIn(ws, o), InsideIn(ws, o));
  }

  lemma SortedCounts(hs: seq<Hole>)
    requires NamesOnce(hs)
    ensures NamesOnce(Sorted(hs))
  {
    SortHolds(hs, ByFallingFirst());
  }

  lemma PartOnce(a: seq<Hole>, b: seq<Hole>)
    requires NamesOnce(a + b)
    ensures NamesOnce(b)
  {
    assert multiset(a + b) == multiset(a) + multiset(b);
    forall h | h in b && h.marker == ENV ensures multiset(b)[h] == 1 {
      assert h in a + b && multiset(b)[h] >= 1;
    }
  }

  lemma LastBlock(ss: seq<Hole>)
    requires ss != []
    ensures Blocks(ss) == Blocks(ss[Alikes(ss)..]) + [ss[0]] && Runs(ss) == Runs(ss[Alikes(ss)..]) + [Alikes(ss)]
  {
    hide Alikes;
  }

  predicate RunsFit(ss: seq<Hole>, k: nat)
    requires k < |Blocks(ss)|
  {
    Blocks(ss)[k] in ss && Runs(ss)[k] >= 1 && (Blocks(ss)[k].marker == ENV ==> Runs(ss)[k] == 1)
  }

  lemma {:induction false} NamesRunOnce(ss: seq<Hole>)
    requires NamesOnce(ss)
    ensures forall k :: 0 <= k < |Blocks(ss)| ==> RunsFit(ss, k)
    decreases |ss|
  {
    hide Alikes, NamesOnce, Blocks, Runs;
    if ss == [] {
      assert Blocks(ss) == [] by { NoBlocks(); }
    } else {
      var m := Alikes(ss);
      assert ss == ss[..m] + ss[m..];
      PartOnce(ss[..m], ss[m..]);
      NamesRunOnce(ss[m..]);
      LastBlock(ss);
      if m > 1 { TwiceInFront(ss); }
      forall k | 0 <= k < |Blocks(ss)| ensures RunsFit(ss, k) {
        if k < |Blocks(ss)| - 1 { assert RunsFit(ss[m..], k); }
      }
    }
  }

  lemma NoBlocks()
    ensures Blocks([]) == []
  {}

  lemma TwiceInFront(ss: seq<Hole>)
    requires |ss| > 1 && ss[0] == ss[1] && NamesOnce(ss)
    ensures ss[0].marker != ENV
  {
    assert ss == [ss[0]] + ([ss[1]] + ss[2..]);
    assert multiset(ss)[ss[0]] >= 2;
  }

  /** A repeated hole shows in the runs. */
  lemma {:induction false} RunsOfOne(ss: seq<Hole>, hs: seq<Hole>)
    requires Fall(ss) && AllApart(hs) && (forall h :: h in ss ==> h in hs && IsShort(h))
    requires forall k :: 0 <= k < |Runs(ss)| ==> Runs(ss)[k] == 1
    ensures NoRepeats(ss)
    decreases |ss|
  {
    hide Alikes, AllApart, Fall, IsShort, Runs;
    if ss != [] {
      RunsLast(ss);
      SuffixFalls(ss, 1);
      assert forall h :: h in ss[1..] ==> h in ss;
      RunsOfOne(ss[1..], hs);
      forall j | 0 < j < |ss| ensures ss[0] != ss[j] { AfterAlikes(ss, hs, j); }
      FirstIsAlone(ss);
    }
  }

  lemma RunsLast(ss: seq<Hole>)
    requires ss != [] && forall k :: 0 <= k < |Runs(ss)| ==> Runs(ss)[k] == 1
    ensures Alikes(ss) == 1 && forall k :: 0 <= k < |Runs(ss[1..])| ==> Runs(ss[1..])[k] == 1
  {
    hide Alikes;
    var n := |Runs(ss)| - 1;
    assert Runs(ss)[n] == Alikes(ss);
    assert forall k :: 0 <= k < n ==> Runs(ss[1..])[k] == Runs(ss)[k];
  }

  lemma FirstIsAlone(ss: seq<Hole>)
    requires ss != [] && NoRepeats(ss[1..]) && forall j :: 0 < j < |ss| ==> ss[0] != ss[j]
    ensures NoRepeats(ss)
  {
    assert ss == [ss[0]] + ss[1..];
  }

  // ---- Twins that are told apart ------------------------------------------------------------------------

  /** Each default in `w` is at least as wide as in `v`, and a marker covers it. */
  predicate AreNarrower(v: seq<Word>, w: seq<Word>, ss: seq<Hole>) {
    forall h :: h in ss && h.marker == DEFAULT ==> Width(v, h) <= Width(w, h) <= |DEFAULT|
  }

  lemma PiecesCovered(shape: seq<Piece>, values: seq<string>, ws: seq<Word>, ss: seq<Hole>, source: string, i: nat)
    requires i < |ws| && (forall h :: h in ss ==> h.last < |ws| && h.marker in {ENV, DEFAULT})
    requires shape == ShapeByWords(source, ws, ss, i) && NamesOnce(ss) && |values| == |Blocks(ss)|
    requires forall k :: 0 <= k < |Blocks(ss)| ==> |values[k]| == Width(ws, Blocks(ss)[k])
    requires forall h :: h in ss && h.marker == DEFAULT ==> Width(ws, h) <= |DEFAULT|
    ensures AllCovered(shape, values)
  {
    hide NamesOnce, Blocks, Runs, ShapeByWords, Width;
    NamesRunOnce(ss);
    PiecesOfBlocks(source, ws, ss, i);
    forall k | 0 <= k < |shape| ensures IsHole(shape[k]) && Covers(shape[k], |values[k]|) {
      assert RunsFit(ss, k) && shape[k].copies == Runs(ss)[k];
    }
  }

  /** Two texts with the same holes differ when a repeated default or the tail does. */
  lemma NarrowerShows(v: seq<Word>, w: seq<Word>, rest: string, o: Owner, k: int)
    requires Solid(v) && Solid(w) && IsOwner(TokensOf(v), o) && IsOwner(TokensOf(w), o)
    requires |v| == |w| && HolesIn(TokensOf(w), o) == HolesIn(TokensOf(v), o)
    requires forall k :: 0 <= k < |v| ==> SameOutside(v, w, HolesIn(TokensOf(v), o), k)
    requires AreNarrower(v, w, InsideIn(v, o))
    requires var tv, tw := Ink(Tail(v, BehindIn(v, o), o)), Ink(Tail(w, BehindIn(w, o), o));
      var blocks := Blocks(InsideIn(v, o));
      && -1 <= k < |blocks| && tv >= tw
      && if k < 0 then tv > tw
         else Runs(InsideIn(v, o))[k] > 1 && Width(v, blocks[k]) < Width(w, blocks[k])
    ensures LieIn(TokensOf(v), Whole(v, rest)) && LieIn(TokensOf(w), Whole(w, rest))
    ensures NormalizedText(Whole(v, rest), TokensOf(v), o) != NormalizedText(Whole(w, rest), TokensOf(w), o)
  {
    hide TextOf, Whole, TokensOf, Spliced, Solid, LieIn, Tail, Tidy, BehindOwner, InOwner, Sorted, NormalizedText, HolesIn, AreThose, Part, ShapeByWords, Blocks, Width, Ink,
      SameOutside, NamesOnce, Runs, AllCovered, IsOwner;
    var os, i, j := InsideIn(v, o), o.first, o.stop;
    assert InsideIn(w, o) == os && BehindIn(w, o) == BehindIn(v, o);
    var vs := NormalizedByShape(v, rest, o);
    var us := NormalizedByShape(w, rest, o);
    InsideAreThose(v, o);
    var hs := HolesIn(TokensOf(v), o);
    OwnerInText(v, o);
    SameShape(v, w, rest, hs, os, i, j);
    SamePart(v, w, rest, hs, os, i, j);
    InsideNamesOnce(v, o);
    NamesRunOnce(os);
    InsideMarkers(v, o);
    var shape := ShapeByWords(Whole(v, rest), v, os, i);
    PiecesCovered(shape, vs, v, os, Whole(v, rest), i);
    PiecesCovered(shape, us, w, os, Whole(w, rest), i);
    PiecesOfBlocks(Whole(v, rest), v, os, i);
    var part := Part(Whole(v, rest), v, os, i, j);
    InkAdds(part, Tail(v, BehindIn(v, o), o));
    InkAdds(part, Tail(w, BehindIn(w, o), o));
    forall n | 0 <= n < |shape| ensures shape[n].copies == 1 || |vs[n]| <= |us[n]| {
      assert RunsFit(os, n) && shape[n].copies == Runs(os)[n];
    }
    ShorterShows(shape, vs, us, part + Tail(v, BehindIn(v, o), o), part + Tail(w, BehindIn(w, o), o), k);
  }

  lemma OwnerInText(ws: seq<Word>, o: Owner)
    requires IsOwner(TokensOf(ws), o)
    ensures o.first < |ws| && o.stop <= |ws|
  {}

  lemma InsideMarkers(ws: seq<Word>, o: Owner)
    requires IsOwner(TokensOf(ws), o)
    ensures forall h :: h in InsideIn(ws, o) ==> h.marker in {ENV, DEFAULT} && h.last < |ws|
    ensures forall h :: h in BehindIn(ws, o) ==> h.marker == DEFAULT
  {
    hide HolesIn, InsideIn, BehindIn, TokensOf;
    Split(ws, o);
    BehindAreDefaults(ws, o);
    OwnerHolesSound(TokensOf(ws), o);
    forall h | h in InsideIn(ws, o) ensures h.marker in {ENV, DEFAULT} { assert IsSound(TokensOf(ws), h); }
  }

  /** The owner reads the same in twins of these words. */
  predicate ReadsAs(ws: seq<Word>, rest: string, xs: seq<Word>, more: string, o: Owner) {
    && LieIn(TokensOf(ws), Whole(ws, rest)) && LieIn(TokensOf(xs), Whole(xs, more))
    && IsOwner(TokensOf(ws), o) && IsOwner(TokensOf(xs), o)
    && NormalizedText(Whole(ws, rest), TokensOf(ws), o) == NormalizedText(Whole(xs, more), TokensOf(xs), o)
  }

  /** The normalized text of the owner tells no twin of these words from them. */
  ghost predicate IgnoresValues(ws: seq<Word>, rest: string, o: Owner)
    requires Solid(ws) && IsOwner(TokensOf(ws), o)
  {
    forall xs, more :: AreTwins(ws, xs, HolesIn(TokensOf(ws), o)) ==> ReadsAs(ws, rest, xs, more, o)
  }

  lemma SampleFacts(ws: seq<Word>, o: Owner, t: Hole, n: nat)
    requires Solid(ws) && IsOwner(TokensOf(ws), o) && n > 0
    ensures var hs := HolesIn(TokensOf(ws), o);
      var xs := Sample(ws, hs, t, n);
      && AreTwins(ws, xs, hs) && Solid(xs) && |xs| == |ws| && IsOwner(TokensOf(xs), o) && HolesIn(TokensOf(xs), o) == hs
      && BehindIn(xs, o) == BehindIn(ws, o) && InsideIn(xs, o) == InsideIn(ws, o)
      && forall h :: h in hs && h.marker == DEFAULT ==> Width(xs, h) == h.last - h.first + (if h == t then n else 1)
  {
    hide HolesIn, Sample, Width, BehindIn, InsideIn, AreTwins, TokensOf, AllApart;
    var hs := HolesIn(TokensOf(ws), o);
    SampleIsTwin(ws, o, t, n);
    TwinsShareHoles(ws, Sample(ws, hs, t, n), o);
    TwinsAreSolid(ws, Sample(ws, hs, t, n), hs);
    HolesLie(ws, o);
    forall h | h in hs && h.marker == DEFAULT ensures Width(Sample(ws, hs, t, n), h) == h.last - h.first + (if h == t then n else 1) {
      SampleWidth(ws, hs, t, n, h);
    }
  }

  lemma TwinsAreSolid(ws: seq<Word>, xs: seq<Word>, hs: seq<Hole>)
    requires AreTwins(ws, xs, hs)
    ensures |xs| == |ws| && Solid(xs)
  {}

  lemma SamplesAgree(ws: seq<Word>, xs: seq<Word>, ys: seq<Word>, hs: seq<Hole>)
    requires AreTwins(ws, xs, hs) && AreTwins(ws, ys, hs)
    ensures |xs| == |ys| && forall k :: 0 <= k < |xs| ==> SameOutside(xs, ys, hs, k)
  {
    hide Alike, IsInner, InHole;
    forall k | 0 <= k < |xs| ensures SameOutside(xs, ys, hs, k) {
      assert SameOutside(ws, xs, hs, k) && SameOutside(ws, ys, hs, k);
    }
  }

  /** Two samples that read differently cannot both read as the words themselves. */
  lemma OneDiffers(ws: seq<Word>, rest: string, o: Owner, t: Hole, n: nat)
    requires Solid(ws) && IsOwner(TokensOf(ws), o) && n > 0
    requires var hs := HolesIn(TokensOf(ws), o);
      var v, w := Sample(ws, hs, t, 1), Sample(ws, hs, t, n);
      && AreTwins(ws, v, hs) && AreTwins(ws, w, hs) && IsOwner(TokensOf(v), o) && IsOwner(TokensOf(w), o)
      && LieIn(TokensOf(v), Whole(v, rest)) && LieIn(TokensOf(w), Whole(w, rest))
      && NormalizedText(Whole(v, rest), TokensOf(v), o) != NormalizedText(Whole(w, rest), TokensOf(w), o)
    ensures !IgnoresValues(ws, rest, o)
  {
    hide AreTwins, TokensOf, TextOf, HolesIn, NormalizedText, LieIn, Sample;
    var hs := HolesIn(TokensOf(ws), o);
    assert !(ReadsAs(ws, rest, Sample(ws, hs, t, 1), rest, o) && ReadsAs(ws, rest, Sample(ws, hs, t, n), rest, o));
  }

  /** Something that is reported more than once is a default, and shows in the runs. */
  lemma RepeatedDefault(ws: seq<Word>, o: Owner) returns (k: nat)
    requires IsOwner(TokensOf(ws), o) && !NoRepeats(InsideIn(ws, o))
    ensures var os := InsideIn(ws, o);
      k < |Blocks(os)| && Runs(os)[k] > 1 && Blocks(os)[k] in os && Blocks(os)[k].marker == DEFAULT
  {
    hide TokensOf, InsideIn, HolesIn, Blocks, Runs, AllApart, NamesOnce;
    var os := InsideIn(ws, o);
    HolesLie(ws, o);
    Split(ws, o);
    SortedFalls(ws, o);
    InsideNamesOnce(ws, o);
    InsideMarkers(ws, o);
    NamesRunOnce(os);
    if forall k :: 0 <= k < |Runs(os)| ==> Runs(os)[k] == 1 { RunsOfOne(os, HolesIn(TokensOf(ws), o)); }
    k :| 0 <= k < |Runs(os)| && Runs(os)[k] != 1;
    assert RunsFit(os, k);
  }

  /** A default of the owner that is reported twice shows how long it is. */
  lemma RepeatShows(ws: seq<Word>, rest: string, o: Owner)
    requires Solid(ws) && IsOwner(TokensOf(ws), o) && !NoRepeats(InsideIn(ws, o))
    ensures !IgnoresValues(ws, rest, o)
  {
    hide TextOf, Whole, TokensOf, Solid, LieIn, Tail, BehindIn, InsideIn, NormalizedText, HolesIn, Blocks, Width, Ink, SameOutside, Runs, AreTwins, Sample,
      IgnoresValues, AllApart, NoRepeats;
    var hs, os := HolesIn(TokensOf(ws), o), InsideIn(ws, o);
    var k := RepeatedDefault(ws, o);
    var t := Blocks(os)[k];
    HolesLie(ws, o);
    Split(ws, o);
    SampleFacts(ws, o, t, 1);
    SampleFacts(ws, o, t, 2);
    var v, w := Sample(ws, hs, t, 1), Sample(ws, hs, t, 2);
    SamplesAgree(ws, v, w, hs);
    forall j | o.stop <= j < |ws| ensures v[j] == w[j] { SamplesDiffer(ws, hs, t, 1, 2, j); }
    SameTailBehind(v, w, o);
    forall h | h in os && h.marker == DEFAULT ensures Width(v, h) <= Width(w, h) <= |DEFAULT| { assert IsShort(h); }
    NarrowerShows(v, w, rest, o, k);
    OneDiffers(ws, rest, o, t, 2);
  }

  lemma SamplesDiffer(ws: seq<Word>, hs: seq<Hole>, t: Hole, m: nat, n: nat, k: nat)
    requires k < |ws| && !Holds(t, k)
    ensures Sample(ws, hs, t, m)[k] == Sample(ws, hs, t, n)[k]
  {}

  lemma {:induction false} DistancesAgree(v: seq<Word>, w: seq<Word>, i: nat, k: nat)
    requires i <= k < |v| == |w| && forall j :: i <= j <= k ==> v[j] == w[j]
    ensures Start(v, k) - Start(v, i) == Start(w, k) - Start(w, i)
    ensures End(v, k + 1) - Start(v, i) == End(w, k + 1) - Start(w, i)
    decreases k
  {
    hide TextOf, Whole;
    EndOfOneMore(v, k);
    EndOfOneMore(w, k);
    if i < k {
      DistancesAgree(v, w, i, k - 1);
      StartAndGap(v, k);
      StartAndGap(w, k);
    }
  }

  lemma StartAndGap(ws: seq<Word>, k: nat)
    requires k < |ws|
    ensures Start(ws, k) == End(ws, k) + |ws[k].gap|
  {}

  /** Sources that are the same from the owner's end on have the same tail. */
  lemma SameTailBehind(v: seq<Word>, w: seq<Word>, o: Owner)
    requires Solid(v) && Solid(w) && IsOwner(TokensOf(v), o) && |v| == |w|
    requires BehindIn(w, o) == BehindIn(v, o) && forall j :: o.stop <= j < |v| ==> v[j] == w[j]
    ensures Tail(v, BehindIn(v, o), o) == Tail(w, BehindIn(w, o), o)
  {
    hide TextOf, Whole, TokensOf, Solid, BehindIn, InsideIn, Place, Start, End, StartOrEnd, Splice, IsOwner, HolesIn;
    var bs := BehindIn(v, o);
    Split(v, o);
    OwnerInText(v, o);
    forall k | 0 <= k < |bs|
      ensures Place(TokensOf(v), bs[k], StartOrEnd(v, o.stop)) == Place(TokensOf(w), bs[k], StartOrEnd(w, o.stop))
    {
      var h := bs[k];
      assert h in bs;
      AtStart(v, o.stop);
      AtStart(w, o.stop);
      PlaceOfHole(v, h, o.stop);
      PlaceOfHole(w, h, o.stop);
      DistancesAgree(v, w, o.stop, h.first);
      DistancesAgree(v, w, o.stop, h.last);
    }
    assert Placed(TokensOf(v), bs, StartOrEnd(v, o.stop)) == Placed(TokensOf(w), bs, StartOrEnd(w, o.stop));
  }

  /** The first default behind the owner starts as far behind it as its words say, and is as wide. */
  lemma LastOfPile(ws: seq<Word>, o: Owner)
    requires Solid(ws) && IsOwner(TokensOf(ws), o) && BehindIn(ws, o) != []
    ensures var bs := BehindIn(ws, o);
      var h, rs := bs[|bs| - 1], Placed(TokensOf(ws), bs, StartOrEnd(ws, o.stop));
      && Piles(rs) && rs[|rs| - 1].start == Ahead(ws, o, h) && rs[|rs| - 1].end == Ahead(ws, o, h) + Width(ws, h)
      && (forall r :: r in rs ==> r.value == DEFAULT)
  {
    hide TextOf, Whole, TokensOf, Solid, BehindIn, InsideIn, Place, Start, End, StartOrEnd, Ahead, Width, IsOwner, HolesIn;
    var bs := BehindIn(ws, o);
    OwnerInText(ws, o);
    assert bs[|bs| - 1] in bs;
    Split(ws, o);
    PilesBehind(ws, o);
    PlaceBehind(ws, o, bs[|bs| - 1]);
    WidthBehind(ws, o, bs[|bs| - 1]);
    var rs := Placed(TokensOf(ws), bs, StartOrEnd(ws, o.stop));
    forall k | 0 <= k < |rs| ensures rs[k].value == DEFAULT { assert OnPile(rs[k], rs[|rs| - 1]); }
  }

  lemma WidthBehind(ws: seq<Word>, o: Owner, h: Hole)
    requires o.stop <= h.first <= h.last < |ws|
    ensures Ahead(ws, o, h) + Width(ws, h) == End(ws, h.last + 1) - Start(ws, o.stop)
  {
    hide TextOf, Whole;
    StartsInText(ws, [], o.stop, h.first);
    AtStart(ws, h.first);
  }

  /** Without room a short first default behind the owner leaves more of a tail than a long one. */
  lemma TailsDiffer(v: seq<Word>, w: seq<Word>, o: Owner)
    requires Solid(v) && Solid(w) && IsOwner(TokensOf(v), o) && IsOwner(TokensOf(w), o)
    requires BehindIn(w, o) == BehindIn(v, o) && BehindIn(v, o) != []
    requires var bs := BehindIn(v, o);
      var h, m := bs[|bs| - 1], |bs|;
      && Ahead(v, o, h) == Ahead(w, o, h) && Width(v, h) <= 2 && Width(w, h) >= 9 * m
      && Ahead(v, o, h) + Width(v, h) < 9 * (m - 1)
    ensures Ink(Tail(v, BehindIn(v, o), o)) > Ink(Tail(w, BehindIn(w, o), o))
  {
    hide TextOf, Whole, TokensOf, Solid, BehindIn, Place, Start, End, StartOrEnd, Ahead, Width, Splice, Ink, Piles, IsOwner;
    OwnerInText(v, o);
    OwnerInText(w, o);
    var rv := Placed(TokensOf(v), BehindIn(v, o), StartOrEnd(v, o.stop));
    var rw := Placed(TokensOf(w), BehindIn(w, o), StartOrEnd(w, o.stop));
    LastOfPile(v, o);
    LastOfPile(w, o);
    assert rv[0..] == rv && rw[0..] == rw;
    ShortLeavesMore(rv, 0, []);
    LongLeavesNothing(rw, 0, []);
    PileIsInk([], rv);
    PileIsInk([], rw);
  }

  /** Without room behind the owner the normalized text shows how long a default there is. */
  lemma NoRoomShows(ws: seq<Word>, rest: string, o: Owner)
    requires Solid(ws) && IsOwner(TokensOf(ws), o) && !HasRoom(ws, BehindIn(ws, o), o)
    ensures !IgnoresValues(ws, rest, o)
  {
    hide TextOf, Whole, TokensOf, Solid, LieIn, Tail, BehindIn, InsideIn, NormalizedText, HolesIn, Blocks, Width, Ink, SameOutside, Runs, AreTwins, Sample,
      IgnoresValues, AllApart, NamesOnce, Ahead;
    var hs, bs := HolesIn(TokensOf(ws), o), BehindIn(ws, o);
    var t, n := bs[|bs| - 1], 9 * |bs|;
    assert t in bs;
    HolesLie(ws, o);
    Split(ws, o);
    InsideMarkers(ws, o);
    SampleFacts(ws, o, t, 1);
    SampleFacts(ws, o, t, n);
    var v, w := Sample(ws, hs, t, 1), Sample(ws, hs, t, n);
    SamplesAgree(ws, v, w, hs);
    SameAhead(ws, v, o);
    SameAhead(ws, w, o);
    assert IsShort(t);
    TailsDiffer(v, w, o);
    forall h | h in InsideIn(v, o) && h.marker == DEFAULT ensures Width(v, h) <= Width(w, h) <= |DEFAULT| {
      assert IsShort(h) && h != t;
    }
    NarrowerShows(v, w, rest, o, -1);
    OneDiffers(ws, rest, o, t, n);
  }

  /** Words are told from no twin exactly when each value is replaced once. */
  lemma WordsIgnoreValues(ws: seq<Word>, rest: string, o: Owner)
    requires Solid(ws) && IsOwner(TokensOf(ws), o)
    ensures IgnoresValues(ws, rest, o) <==> ReplacesOnce(ws, o)
  {
    hide TextOf, Whole, TokensOf, Solid, LieIn, BehindIn, InsideIn, NormalizedText, HolesIn, AreTwins, HasRoom, IsOwner;
    if !NoRepeats(InsideIn(ws, o)) {
      RepeatShows(ws, rest, o);
    } else if !HasRoom(ws, BehindIn(ws, o), o) {
      NoRoomShows(ws, rest, o);
    } else {
      forall xs, more | AreTwins(ws, xs, HolesIn(TokensOf(ws), o)) ensures ReadsAs(ws, rest, xs, more, o) {
        TwinsReadAlike(ws, rest, xs, more, o);
      }
    }
  }

  // ---- The same for sources --------------------------------------------------------------------------

  /** Sources that agree outside the names and defaults of the owner. */
  predicate TwinSources(source: string, tokens: Tokens, other: string, others: Tokens, o: Owner) {
    && LieIn(tokens, source) && LieIn(others, other)
    && AreTwins(WordsOf(source, tokens), WordsOf(other, others), HolesIn(tokens, o))
  }

  predicate SameText(source: string, tokens: Tokens, other: string, others: Tokens, o: Owner) {
    && LieIn(tokens, source) && LieIn(others, other) && IsOwner(tokens, o) && IsOwner(others, o)
    && NormalizedText(source, tokens, o) == NormalizedText(other, others, o)
  }

  /** A source as its words and what follows them. */
  lemma SourceIsWords(source: string, tokens: Tokens) returns (rest: string)
    requires LieIn(tokens, source)
    ensures var ws := WordsOf(source, tokens); Solid(ws) && TokensOf(ws) == tokens && Whole(ws, rest) == source
  {
    hide TextOf, WordsOf, LieIn, TokensOf;
    TextIsWords(source, tokens);
    rest := source[EndBefore(tokens, |tokens|)..];
  }

  /**
   The normalized text of an owner tells a source from none that differs only in the owner's
   names and defaults exactly when nothing in the owner is reported twice and there is room for
   the defaults found behind it.
   */
  lemma NormalizedTextIgnoresValues(source: string, tokens: Tokens, o: Owner)
    requires LieIn(tokens, source) && IsOwner(tokens, o)
    ensures (forall other, others :: TwinSources(source, tokens, other, others, o) ==> SameText(source, tokens, other, others, o))
      <==> ReplacesOnce(WordsOf(source, tokens), o)
  {
    hide TextOf, Whole, WordsOf, LieIn, TokensOf, Solid, AreTwins, HolesIn, NormalizedText, ReplacesOnce, IsOwner;
    var ws := WordsOf(source, tokens);
    var rest := SourceIsWords(source, tokens);
    WordsIgnoreValues(ws, rest, o);
    if ReplacesOnce(ws, o) {
      forall other, others | TwinSources(source, tokens, other, others, o) ensures SameText(source, tokens, other, others, o) {
        var more := SourceIsWords(other, others);
        assert ReadsAs(ws, rest, WordsOf(other, others), more, o);
      }
    } else {
      var xs, more :| AreTwins(ws, xs, HolesIn(TokensOf(ws), o)) && !ReadsAs(ws, rest, xs, more, o);
      TwinsAreSolid(ws, xs, HolesIn(TokensOf(ws), o));
      TwinsShareHoles(ws, xs, o);
      WordsBack(xs, more);
      assert TwinSources(source, tokens, Whole(xs, more), TokensOf(xs), o);
      assert !SameText(source, tokens, Whole(xs, more), TokensOf(xs), o);
    }
  }
}
