/**
 The normalized text of a configuration owner, from scripts/release-safety-config-diff.ts:
 variable names and literal defaults are replaced by markers, from right to left, so that
 two owners that differ only in those read the same.
 */
module OwnerText {
  import opened Options
  import opened Sequences
  import opened Sorting
  import opened JsText

  // ---- Splicing -----------------------------------------------------------------------------

  datatype Replacement = Replacement(start: nat, end: nat, value: string)

  /** `s.slice(0, n)`. */
  function Take(s: string, n: nat): string { if n <= |s| then s[..n] else s }

  /** `s.slice(n)`. */
  function Drop(s: string, n: nat): string { if n <= |s| then s[n..] else [] }

  function SpliceOne(text: string, r: Replacement): string { Take(text, r.start) + (r.value + Drop(text, r.end)) }

  /** The replacements made one after the other, each in the text the earlier ones left. */
  function Splice(text: string, rs: seq<Replacement>): string
    decreases |rs|
  {
    if rs == [] then text else Splice(SpliceOne(text, rs[0]), rs[1..])
  }

  predicate InRange(text: string, r: Replacement) { r.start < r.end <= |text| }

  predicate RightToLeft(rs: seq<Replacement>) {
    forall i, j :: 0 <= i < j < |rs| ==> rs[j].end <= rs[i].start
  }

  /** Replacements of separate parts of the text, listed from right to left. */
  predicate Separate(text: string, rs: seq<Replacement>) {
    RightToLeft(rs) && forall k :: 0 <= k < |rs| ==> InRange(text, rs[k])
  }

  lemma SeparateRest(text: string, rs: seq<Replacement>)
    requires Separate(text, rs) && rs != []
    ensures rs[0].start < rs[0].end <= |text| && Separate(text[..rs[0].start], rs[1..])
  {
    assert InRange(text, rs[0]);
    assert forall k :: 0 <= k < |rs| - 1 ==> rs[1..][k] == rs[k + 1] && InRange(text, rs[k + 1]);
  }

  /** The replacements made at once: what lies between them is the old text. `rs` is listed from right to left. */
  function Substituted(text: string, rs: seq<Replacement>): string
    requires Separate(text, rs)
    decreases |rs|
  {
    if rs == [] then text
    else
      var r := rs[0];
      SeparateRest(text, rs);
      Substituted(text[..r.start], rs[1..]) + (r.value + text[r.end..])
  }

  /** One more replacement behind separate ones. */
  lemma SeparateFront(text: string, rs: seq<Replacement>)
    requires rs != [] && rs[0].start < rs[0].end <= |text| && Separate(text[..rs[0].start], rs[1..])
    ensures Separate(text, rs)
  {
    forall k | 0 <= k < |rs| ensures InRange(text, rs[k]) {
      if k > 0 { assert InRange(text[..rs[0].start], rs[1..][k - 1]); }
    }
    forall i, j | 0 <= i < j < |rs| ensures rs[j].end <= rs[i].start {
      assert InRange(text[..rs[0].start], rs[1..][j - 1]);
      if i > 0 { assert rs[1..][j - 1].end <= rs[1..][i - 1].start; }
    }
  }

  lemma SpliceOneSplits(text: string, tail: string, r: Replacement)
    requires InRange(text, r)
    ensures SpliceOne(text + tail, r) == text[..r.start] + (r.value + text[r.end..] + tail)
  {
    assert (text + tail)[..r.start] == text[..r.start] && (text + tail)[r.end..] == text[r.end..] + tail;
  }

  /** Text behind all replacements stays as it is. */
  lemma SpliceNext(text: string, rs: seq<Replacement>, next: string)
    requires rs != [] && SpliceOne(text, rs[0]) == next
    ensures Splice(text, rs) == Splice(next, rs[1..])
  {}

  lemma {:induction false} SpliceIgnoresTail(text: string, tail: string, rs: seq<Replacement>)
    requires Separate(text, rs)
    ensures Splice(text + tail, rs) == Splice(text, rs) + tail
    decreases |rs|
  {
    if rs != [] { SpliceIgnoresTailStep(text, tail, rs); }
  }

  lemma {:induction false} SpliceIgnoresTailStep(text: string, tail: string, rs: seq<Replacement>)
    requires Separate(text, rs) && rs != []
    ensures Splice(text + tail, rs) == Splice(text, rs) + tail
    decreases |rs|, 0
  {
    var r, rest := rs[0], rs[1..];
    SeparateRest(text, rs);
    var front, back := text[..r.start], r.value + text[r.end..];
    SpliceOneSplits(text, tail, r);
    SpliceOneSplits(text, [], r);
    assert text + [] == text && back + [] == back;
    SpliceNext(text + tail, rs, front + (back + tail));
    SpliceNext(text, rs, front + back);
    SpliceIgnoresTail(front, back + tail, rest);
    SpliceIgnoresTail(front, back, rest);
    Regroup(Splice(front, rest), back, tail);
  }

  /** Splicing from right to left is simultaneous substitution. */
  lemma {:induction false} SpliceIsSubstitution(text: string, rs: seq<Replacement>)
    requires Separate(text, rs)
    ensures Splice(text, rs) == Substituted(text, rs)
    decreases |rs|
  {
    if rs != [] {
      var r, rest := rs[0], rs[1..];
      SeparateRest(text, rs);
      SpliceIgnoresTail(text[..r.start], r.value + text[r.end..], rest);
      SpliceIsSubstitution(text[..r.start], rest);
    }
  }

  // ---- Sorting ----------------------------------------------------------------------------------

  predicate Descending(rs: seq<Replacement>) {
    forall i, j :: 0 <= i < j < |rs| ==> rs[j].start <= rs[i].start
  }

  function ByFallingStart(): Order<Replacement> { (a: Replacement, b: Replacement) => b.start <= a.start }

  /** A stable sort by falling start. */
  function SortDescending(rs: seq<Replacement>): seq<Replacement> { Sort(rs, ByFallingStart()) }

  lemma SortDescends(rs: seq<Replacement>)
    ensures Descending(SortDescending(rs)) && multiset(SortDescending(rs)) == multiset(rs)
  {
    assert IsOrder(ByFallingStart());
    SortSorts(rs, ByFallingStart());
    SortHolds(rs, ByFallingStart());
    forall i, j | 0 <= i < j < |SortDescending(rs)| ensures SortDescending(rs)[j].start <= SortDescending(rs)[i].start {
      assert ByFallingStart()(SortDescending(rs)[i], SortDescending(rs)[j]);
    }
  }

  predicate Apart(a: Replacement, b: Replacement) { a.end <= b.start || b.end <= a.start }

  predicate Disjoint(rs: seq<Replacement>) { forall i, j :: 0 <= i < j < |rs| ==> Apart(rs[i], rs[j]) }

  lemma ConsSeparate(text: string, r: Replacement, rs: seq<Replacement>)
    requires Separate(text, rs) && InRange(text, r) && forall t :: t in rs ==> t.end <= r.start
    ensures Separate(text, [r] + rs)
  {
    var all := [r] + rs;
    forall i, j | 0 <= i < j < |all| ensures all[j].end <= all[i].start { assert all[j] == rs[j - 1]; }
  }

  lemma UnconsSeparate(text: string, rs: seq<Replacement>)
    requires Separate(text, rs) && rs != []
    ensures Separate(text, rs[1..]) && InRange(text, rs[0]) && forall t :: t in rs[1..] ==> t.end <= rs[0].start
  {
    assert forall k :: 0 <= k < |rs| - 1 ==> rs[1..][k] == rs[k + 1] && InRange(text, rs[k + 1]);
  }

  lemma ApartAndEarlier(text: string, r: Replacement, t: Replacement)
    requires Apart(r, t) && InRange(text, r) && InRange(text, t) && r.start <= t.start
    ensures r.end <= t.start
  {}

  lemma {:induction false} InsertSeparate(text: string, r: Replacement, rs: seq<Replacement>)
    requires Separate(text, rs) && InRange(text, r) && forall t :: t in rs ==> Apart(r, t)
    ensures Separate(text, Insert(r, rs, ByFallingStart()))
  {
    if rs == [] {
      ConsSeparate(text, r, rs);
    } else {
      var head, rest := rs[0], rs[1..];
      UnconsSeparate(text, rs);
      assert head in rs && forall t :: t in rest ==> t in rs;
      if head.start <= r.start {
        ApartAndEarlier(text, head, r);
        assert forall t :: t in rs ==> t == head || t in rest;
        ConsSeparate(text, r, rs);
      } else {
        ApartAndEarlier(text, r, head);
        InsertSeparate(text, r, rest);
        InsertedBelow(r, rest, head.start);
        ConsSeparate(text, head, Insert(r, rest, ByFallingStart()));
      }
    }
  }

  lemma InsertedBelow(r: Replacement, rs: seq<Replacement>, limit: nat)
    requires r.end <= limit && forall t :: t in rs ==> t.end <= limit
    ensures forall t :: t in Insert(r, rs, ByFallingStart()) ==> t.end <= limit
  {
    InsertHolds(r, rs, ByFallingStart());
    forall t | t in Insert(r, rs, ByFallingStart()) ensures t.end <= limit {
      assert t in multiset(Insert(r, rs, ByFallingStart()));
    }
  }

  lemma SortedFront(rs: seq<Replacement>)
    ensures SortDescending(rs) == if rs == [] then [] else Insert(rs[0], SortDescending(rs[1..]), ByFallingStart())
  {}

  lemma NothingSeparate(text: string)
    ensures Separate(text, [])
  {}

  /** The loop over disjoint replacements in range, in whatever order they were found, replaces them all at once. */
  lemma {:induction false} DisjointSeparate(text: string, rs: seq<Replacement>)
    requires Disjoint(rs) && forall k :: 0 <= k < |rs| ==> InRange(text, rs[k])
    ensures Separate(text, SortDescending(rs))
    ensures Splice(text, SortDescending(rs)) == Substituted(text, SortDescending(rs))
  {
    hide Separate, Splice, Substituted, Sort, Insert;
    SortedFront(rs);
    if rs == [] {
      NothingSeparate(text);
    } else {
      DisjointSeparate(text, rs[1..]);
      SortHolds(rs[1..], ByFallingStart());
      forall t | t in SortDescending(rs[1..]) ensures Apart(rs[0], t) {
        var k :| 0 <= k < |rs| - 1 && rs[1..][k] == t;
        assert Apart(rs[0], rs[k + 1]);
      }
      InsertSeparate(text, rs[0], SortDescending(rs[1..]));
    }
    SpliceIsSubstitution(text, SortDescending(rs));
  }

  /** Replacements that start together are the same one. */
  predicate StartsTell(rs: seq<Replacement>) {
    forall i, j :: 0 <= i < |rs| && 0 <= j < |rs| && rs[i].start == rs[j].start ==> rs[i] == rs[j]
  }

  lemma SameHead(a: seq<Replacement>, b: seq<Replacement>)
    requires Descending(a) && Descending(b) && multiset(a) == multiset(b) && StartsTell(b) && a != [] && b != []
    ensures a[0] == b[0]
  {
    assert a[0] in multiset(b) && b[0] in multiset(a);
    var i :| 0 <= i < |b| && b[i] == a[0];
    var j :| 0 <= j < |a| && a[j] == b[0];
  }

  lemma {:induction false} DescendingUnique(a: seq<Replacement>, b: seq<Replacement>)
    requires Descending(a) && Descending(b) && multiset(a) == multiset(b) && StartsTell(b)
    ensures a == b
  {
    assert |a| == |multiset(a)| == |multiset(b)| == |b|;
    if a != [] {
      SameHead(a, b);
      SameTails(a, b);
      DescendingUnique(a[1..], b[1..]);
    }
  }

  lemma SameTails(a: seq<Replacement>, b: seq<Replacement>)
    requires a != [] && b != [] && a[0] == b[0] && multiset(a) == multiset(b)
    ensures multiset(a[1..]) == multiset(b[1..])
  {
    assert a == [a[0]] + a[1..] && b == [b[0]] + b[1..];
    assert multiset(a) == multiset{a[0]} + multiset(a[1..]);
    assert multiset(b) == multiset{b[0]} + multiset(b[1..]);
    assert multiset(a[1..]) == multiset(a) - multiset{a[0]};
    assert multiset(b[1..]) == multiset(b) - multiset{b[0]};
  }

  // ---- Whitespace ---------------------------------------------------------------------------------

  /** Runs of whitespace become one blank. */
  function Squeeze(s: string, inRun: bool): string {
    if s == [] then []
    else if IsSpace(s[0]) then (if inRun then [] else " ") + Squeeze(s[1..], true)
    else [s[0]] + Squeeze(s[1..], false)
  }

  function Tidy(s: string): string { Trim(Squeeze(s, false)) }

  /** How many characters are not whitespace. */
  function Ink(s: string): nat { if s == [] then 0 else (if IsSpace(s[0]) then 0 else 1) + Ink(s[1..]) }

  lemma {:induction false} InkAdds(a: string, b: string)
    ensures Ink(a + b) == Ink(a) + Ink(b)
  {
    if a == [] {
      assert a + b == b;
    } else {
      InkAdds(a[1..], b);
      assert (a + b)[1..] == a[1..] + b;
    }
  }

  lemma {:induction false} SqueezeKeepsInk(s: string, inRun: bool)
    ensures Ink(Squeeze(s, inRun)) == Ink(s)
  {
    if s != [] {
      SqueezeKeepsInk(s[1..], IsSpace(s[0]));
      var tail := Squeeze(s[1..], IsSpace(s[0]));
      InkAdds(if IsSpace(s[0]) then (if inRun then [] else " ") else [s[0]], tail);
    }
  }

  lemma {:induction false} TrimStartKeepsInk(s: string)
    ensures Ink(TrimStart(s)) == Ink(s)
  {
    if s != [] && IsSpace(s[0]) { TrimStartKeepsInk(s[1..]); }
  }

  lemma {:induction false} TrimEndKeepsInk(s: string)
    ensures Ink(TrimEnd(s)) == Ink(s)
  {
    if s != [] && IsSpace(s[|s| - 1]) {
      var n := |s| - 1;
      TrimEndKeepsInk(s[..n]);
      InkAdds(s[..n], [s[n]]);
      assert s == s[..n] + [s[n]];
    }
  }

  lemma TidyKeepsInk(s: string)
    ensures Ink(Tidy(s)) == Ink(s)
  {
    SqueezeKeepsInk(s, false);
    TrimStartKeepsInk(Squeeze(s, false));
    TrimEndKeepsInk(TrimStart(Squeeze(s, false)));
  }

  // ---- Words ----------------------------------------------------------------------------------------

  /** The stretches without white space, in order. */
  function WordsIn(s: string): (r: seq<string>)
    ensures s != [] && !IsSpace(s[0]) ==> r != [] && r[0] != []
  {
    if s == [] then []
    else if IsSpace(s[0]) then WordsIn(s[1..])
    else if |s| == 1 || IsSpace(s[1]) then [[s[0]]] + WordsIn(s[1..])
    else
      var rest := WordsIn(s[1..]);
      [[s[0]] + rest[0]] + rest[1..]
  }

  /** With one blank between them. */
  function Spaced(words: seq<string>): string {
    if words == [] then [] else if |words| == 1 then words[0] else words[0] + (" " + Spaced(words[1..]))
  }

  /** The blank that squeezing leaves behind the last word. */
  function LastBlank(s: string): string { if WordsIn(s) != [] && IsSpace(s[|s| - 1]) then " " else "" }

  lemma SpacedCons(w: string, words: seq<string>)
    ensures Spaced([w] + words) == if words == [] then w else w + (" " + Spaced(words))
  {
    assert ([w] + words)[1..] == words;
  }

  lemma SpacedLonger(c: char, words: seq<string>)
    requires words != []
    ensures Spaced([[c] + words[0]] + words[1..]) == [c] + Spaced(words)
  {
    assert words == [words[0]] + words[1..];
    SpacedCons([c] + words[0], words[1..]);
    SpacedCons(words[0], words[1..]);
  }

  lemma NoWords(s: string)
    requires forall k :: 0 <= k < |s| ==> IsSpace(s[k])
    ensures WordsIn(s) == []
  {}

  lemma {:induction false} NoWordNoInk(s: string)
    requires WordsIn(s) == []
    ensures forall k :: 0 <= k < |s| ==> IsSpace(s[k])
  {
    if s != [] { NoWordNoInk(s[1..]); }
  }

  lemma WordEnds(s: string)
    requires |s| > 1 && !IsSpace(s[0]) && IsSpace(s[1])
    requires Squeeze(s[2..], true) == Spaced(WordsIn(s[2..])) + LastBlank(s[2..])
    ensures Squeeze(s, true) == Spaced(WordsIn(s)) + LastBlank(s)
  {
    hide Spaced, IsSpace, LastBlank;
    var after, words := s[2..], WordsIn(s[2..]);
    FirstWord(s);
    SpacedCons([s[0]], words);
    if words == [] {
      NoneSpaced();
      BlankBehind(s);
    } else {
      assert [s[0]] + (" " + (Spaced(words) + LastBlank(after))) == [s[0]] + (" " + Spaced(words)) + LastBlank(after);
      SameLastBlank(s);
    }
  }

  lemma BlankBehind(s: string)
    requires |s| > 1 && !IsSpace(s[0]) && IsSpace(s[1]) && WordsIn(s[2..]) == []
    ensures LastBlank(s) == " " && LastBlank(s[2..]) == ""
  {
    NoWordNoInk(s[2..]);
    if |s| > 2 { assert s[|s| - 1] == s[2..][|s| - 3]; }
  }

  lemma SameLastBlank(s: string)
    requires |s| > 1 && !IsSpace(s[0]) && WordsIn(s[2..]) != []
    ensures LastBlank(s) == LastBlank(s[2..])
  {
    hide IsSpace;
    assert |s| > 2 && s[|s| - 1] == s[2..][|s| - 3];
  }

  /** A word of one character, and white space behind it. */
  lemma FirstWord(s: string)
    requires |s| > 1 && !IsSpace(s[0]) && IsSpace(s[1])
    ensures WordsIn(s) == [[s[0]]] + WordsIn(s[2..])
    ensures Squeeze(s, true) == [s[0]] + (" " + Squeeze(s[2..], true))
  {
    hide IsSpace;
    assert s[1..][1..] == s[2..];
  }

  lemma WordGoesOn(s: string)
    requires |s| > 1 && !IsSpace(s[0]) && !IsSpace(s[1])
    requires Squeeze(s[1..], false) == Spaced(WordsIn(s[1..])) + LastBlank(s[1..])
    ensures Squeeze(s, true) == Spaced(WordsIn(s)) + LastBlank(s)
  {
    var rest := s[1..];
    SpacedLonger(s[0], WordsIn(rest));
    assert [s[0]] + (Spaced(WordsIn(rest)) + LastBlank(rest)) == [s[0]] + Spaced(WordsIn(rest)) + LastBlank(rest);
  }

  /** Behind white space, and at the start of a word, squeezing leaves the words with one blank between them. */
  lemma {:induction false} SqueezeIsWords(s: string)
    ensures Squeeze(s, true) == Spaced(WordsIn(s)) + LastBlank(s)
    ensures s != [] && !IsSpace(s[0]) ==> Squeeze(s, false) == Squeeze(s, true)
    decreases |s|
  {
    if s == [] {
    } else if IsSpace(s[0]) {
      SqueezeIsWords(s[1..]);
    } else if |s| == 1 {
      assert s == [s[0]] && s[1..] == [];
    } else if IsSpace(s[1]) {
      SqueezeIsWords(s[2..]);
      WordEnds(s);
    } else {
      SqueezeIsWords(s[1..]);
      WordGoesOn(s);
    }
  }

  lemma {:induction false} WordsAreInk(s: string)
    ensures forall w :: w in WordsIn(s) ==> w != [] && forall k :: 0 <= k < |w| ==> !IsSpace(w[k])
  {
    if s != [] {
      WordsAreInk(s[1..]);
      if !IsSpace(s[0]) && |s| > 1 && !IsSpace(s[1]) { assert WordsIn(s[1..])[0] in WordsIn(s[1..]); }
    }
  }

  lemma {:induction false} SpacedEnds(words: seq<string>)
    requires words != [] && forall w :: w in words ==> w != [] && forall k :: 0 <= k < |w| ==> !IsSpace(w[k])
    ensures var t := Spaced(words); t != [] && !IsSpace(t[0]) && !IsSpace(t[|t| - 1])
  {
    assert words[0] in words;
    if |words| > 1 { SpacedEnds(words[1..]); }
  }

  lemma TrimEndsOnce(t: string)
    requires t != [] ==> !IsSpace(t[|t| - 1])
    ensures TrimEnd(t) == t && TrimEnd(t + " ") == t
  {
    assert (t + " ")[..|t|] == t;
  }

  /** Tidying leaves the words, with one blank between them. */
  lemma TidyIsWords(s: string)
    ensures Tidy(s) == Spaced(WordsIn(s))
  {
    SqueezeIsWords(s);
    WordsAreInk(s);
    var words := Spaced(WordsIn(s));
    if WordsIn(s) != [] { SpacedEnds(WordsIn(s)); }
    TrimEndsOnce(words);
    assert words + "" == words;
    assert TrimEnd(Squeeze(s, true)) == words;
    assert TrimStart(Squeeze(s, false)) == Squeeze(s, true) by { FrontTrimmed(s); }
  }

  lemma FrontTrimmed(s: string)
    ensures TrimStart(Squeeze(s, false)) == Squeeze(s, true)
  {
    hide Spaced, WordsIn;
    SqueezeIsWords(s);
    WordsAreInk(s);
    if WordsIn(s) != [] { SpacedEnds(WordsIn(s)); } else { assert Spaced(WordsIn(s)) == "" by { NoneSpaced(); } }
    var t := Squeeze(s, true);
    assert TrimStart(t) == t;
    if s != [] && IsSpace(s[0]) {
      assert Squeeze(s, false) == " " + t;
      assert (" " + t)[1..] == t;
    }
  }

  lemma NoneSpaced()
    ensures Spaced([]) == []
  {}

  // ---- Owners ---------------------------------------------------------------------------------------

  datatype Extent = Extent(start: nat, end: nat)

  datatype Usage = Usage(name: Extent, default: Option<Extent>)

  const ENV := "<ENV>"
  const DEFAULT := "<DEFAULT>"

  predicate Within(owner: Extent, usage: Usage) { owner.start <= usage.name.start && usage.name.end <= owner.end }

  /** A default is read behind the name it belongs to. */
  predicate WellPlaced(u: Usage) {
    && u.name.start < u.name.end
    && (u.default.Some? ==> u.name.end <= u.default.value.start < u.default.value.end)
  }

  function Replacing(e: Extent, start: nat, value: string): Replacement
    requires start <= e.start < e.end
  {
    Replacement(e.start - start, e.end - start, value)
  }

  /** What the usages of an owner replace in its text, in the order of the usages. */
  function Replacements(owner: Extent, usages: seq<Usage>): seq<Replacement>
    requires forall k :: 0 <= k < |usages| ==> WellPlaced(usages[k])
  {
    if usages == [] then []
    else
      var n := |usages| - 1;
      var u := usages[n];
      assert WellPlaced(u);
      Replacements(owner, usages[..n])
      + (if !Within(owner, u) then []
         else [Replacing(u.name, owner.start, ENV)]
              + (if u.default.None? then [] else [Replacing(u.default.value, owner.start, DEFAULT)]))
  }

  method NormalizedOwnerText(source: string, owner: Extent, usages: seq<Usage>) returns (r: string)
    requires owner.start <= owner.end <= |source| && forall k :: 0 <= k < |usages| ==> WellPlaced(usages[k])
    ensures r == Tidy(Splice(source[owner.start..owner.end], SortDescending(Replacements(owner, usages))))
  {
    var found: seq<Replacement> := [];
    for k := 0 to |usages|
      invariant found == Replacements(owner, usages[..k])
    {
      assert usages[..k + 1][..k] == usages[..k];
      var u := usages[k];
      if Within(owner, u) {
        found := found + [Replacing(u.name, owner.start, ENV)]
          + (if u.default.None? then [] else [Replacing(u.default.value, owner.start, DEFAULT)]);
      }
    }
    assert usages[..|usages|] == usages;
    var replacements := SortDescending(found);
    var normalized := source[owner.start..owner.end];
    for k := 0 to |replacements|
      invariant Splice(normalized, replacements[k..]) == Splice(source[owner.start..owner.end], replacements)
    {
      assert replacements[k..][0] == replacements[k] && replacements[k..][1..] == replacements[k + 1..];
      normalized := Take(normalized, replacements[k].start) + (replacements[k].value + Drop(normalized, replacements[k].end));
    }
    return Tidy(normalized);
  }

  // ---- Owners that differ only in names and defaults ----------------------------------------------------

  /**
   Fixed text with a hole behind it. The hole takes a name, or a default literal, which
   `copies` usages report as theirs; `marker` is what it is replaced by.
   */
  datatype Piece = Piece(text: string, marker: string, copies: nat)

  predicate IsHole(p: Piece) { (p.marker == ENV && p.copies == 1) || (p.marker == DEFAULT && p.copies >= 1) }

  /** A value for every hole, none empty. */
  predicate Fills(shape: seq<Piece>, values: seq<string>) {
    |values| == |shape| && forall k :: 0 <= k < |values| ==> values[k] != []
  }

  /** The pieces with their holes filled. */
  function Filled(shape: seq<Piece>, values: seq<string>): string
    requires |values| == |shape|
    decreases |shape|
  {
    if shape == [] then []
    else
      var n := |shape| - 1;
      Filled(shape[..n], values[..n]) + (shape[n].text + values[n])
  }

  function Copies(r: Replacement, m: nat): seq<Replacement> { if m == 0 then [] else [r] + Copies(r, m - 1) }

  /** What is reported for the hole of a piece when `at` characters stand in front of it. */
  function Report(p: Piece, at: nat, value: string): Replacement { Replacement(at, at + |value|, p.marker) }

  /** The replacements reported for the holes, from right to left. */
  function Reported(shape: seq<Piece>, values: seq<string>): seq<Replacement>
    requires |values| == |shape|
    decreases |shape|
  {
    if shape == [] then []
    else
      var n := |shape| - 1;
      var at := |Filled(shape[..n], values[..n])| + |shape[n].text|;
      Copies(Report(shape[n], at, values[n]), shape[n].copies) + Reported(shape[..n], values[..n])
  }

  /** What `m` replacements of the first `n` characters make of `s`. */
  function After(marker: string, n: nat, s: string, m: nat): string
    decreases m
  {
    if m == 0 then s else After(marker, n, marker + Drop(s, n), m - 1)
  }

  lemma CopiesNext(r: Replacement, m: nat, rs: seq<Replacement>)
    requires m > 0
    ensures var all := Copies(r, m) + rs; all != [] && all[0] == r && all[1..] == Copies(r, m - 1) + rs
  {}

  /** A way to carry out replacements. */
  type Splicer = (string, seq<Replacement>) -> string

  /** Carrying out replacements one at a time. */
  ghost predicate OneByOne(splice: Splicer) {
    forall text, rs :: rs != [] ==> splice(text, rs) == splice(SpliceOne(text, rs[0]), rs[1..])
  }

  lemma {:induction false} CopyByCopy(splice: Splicer, front: string, s: string, n: nat, marker: string, m: nat, rs: seq<Replacement>)
    requires OneByOne(splice)
    ensures splice(front + s, Copies(Replacement(|front|, |front| + n, marker), m) + rs)
      == splice(front + After(marker, n, s, m), rs)
    decreases m
  {
    var r := Replacement(|front|, |front| + n, marker);
    if m == 0 {
      assert Copies(r, 0) + rs == rs;
    } else {
      CopiesNext(r, m, rs);
      SpliceOneAt(front, s, n, marker);
      CopyByCopy(splice, front, marker + Drop(s, n), n, marker, m - 1, rs);
    }
  }

  /** Replacing the same range `m` times over, in a text that starts with what stands before the range. */
  lemma SpliceCopies(front: string, s: string, n: nat, marker: string, m: nat, rs: seq<Replacement>)
    ensures Splice(front + s, Copies(Replacement(|front|, |front| + n, marker), m) + rs)
      == Splice(front + After(marker, n, s, m), rs)
  {
    var splice := (text: string, rs: seq<Replacement>) => Splice(text, rs);
    forall text, rs' | rs' != [] ensures splice(text, rs') == splice(SpliceOne(text, rs'[0]), rs'[1..]) {
      SpliceNext(text, rs', SpliceOne(text, rs'[0]));
    }
    CopyByCopy(splice, front, s, n, marker, m, rs);
  }

  lemma SpliceOneAt(front: string, s: string, n: nat, marker: string)
    ensures SpliceOne(front + s, Replacement(|front|, |front| + n, marker)) == front + (marker + Drop(s, n))
  {
    assert (front + s)[..|front|] == front;
    if n <= |s| { assert (front + s)[|front| + n..] == s[n..]; }
  }

  /** A piece with its hole spliced, in front of a tail. */
  function Behind(p: Piece, value: string, tail: string): string {
    p.text + After(p.marker, |value|, value + tail, p.copies)
  }

  /** The spliced text, hole by hole. */
  function Spliced(shape: seq<Piece>, values: seq<string>, tail: string): string
    requires |values| == |shape|
    decreases |shape|
  {
    if shape == [] then tail
    else
      var n := |shape| - 1;
      Spliced(shape[..n], values[..n], Behind(shape[n], values[n], tail))
  }

  /** The last hole of a filled text, spliced. */
  lemma SpliceHole(filled: string, p: Piece, value: string, tail: string, rs: seq<Replacement>)
    ensures var at := |filled| + |p.text|;
      Splice(filled + (p.text + value) + tail, Copies(Report(p, at, value), p.copies) + rs)
      == Splice(filled + Behind(p, value, tail), rs)
  {
    var front := filled + p.text;
    var spliced := After(p.marker, |value|, value + tail, p.copies);
    assert filled + (p.text + value) + tail == front + (value + tail);
    assert filled + (p.text + spliced) == front + spliced;
    SpliceCopies(front, value + tail, |value|, p.marker, p.copies, rs);
  }

  /** `splice` turns the last hole of a filled text into what `Behind` says. */
  ghost predicate DoesHole(splice: Splicer, filled: string, p: Piece, value: string, tail: string, rs: seq<Replacement>) {
    var at := |filled| + |p.text|;
    splice(filled + (p.text + value) + tail, Copies(Report(p, at, value), p.copies) + rs)
      == splice(filled + Behind(p, value, tail), rs)
  }

  ghost predicate DoesHoles(splice: Splicer) {
    && (forall text :: splice(text, []) == text)
    && (forall filled, p, value, tail, rs :: DoesHole(splice, filled, p, value, tail, rs))
  }

  lemma SplicedLast(shape: seq<Piece>, values: seq<string>, tail: string)
    requires |values| == |shape| && shape != []
    ensures var n := |shape| - 1; Spliced(shape, values, tail) == Spliced(shape[..n], values[..n], Behind(shape[n], values[n], tail))
  {
    hide Behind;
  }

  lemma OneHole(splice: Splicer, filled: string, p: Piece, value: string, tail: string, rs: seq<Replacement>)
    requires DoesHoles(splice)
    ensures splice(filled + (p.text + value) + tail, Copies(Report(p, |filled| + |p.text|, value), p.copies) + rs)
      == splice(filled + Behind(p, value, tail), rs)
  {
    hide Behind, Copies, Report;
    assert DoesHole(splice, filled, p, value, tail, rs);
  }

  lemma LastHole(splice: Splicer, shape: seq<Piece>, values: seq<string>, tail: string)
    requires DoesHoles(splice) && |values| == |shape| && shape != []
    ensures var n := |shape| - 1;
      splice(Filled(shape, values) + tail, Reported(shape, values))
        == splice(Filled(shape[..n], values[..n]) + Behind(shape[n], values[n], tail), Reported(shape[..n], values[..n]))
  {
    hide Filled, Reported, Behind, Copies, Report, DoesHoles;
    var n := |shape| - 1;
    FilledLast(shape, values);
    OneHole(splice, Filled(shape[..n], values[..n]), shape[n], values[n], tail, Reported(shape[..n], values[..n]));
  }

  /** Whatever does the last hole does all of them, one by one from right to left. */
  lemma {:induction false} HoleByHole(splice: Splicer, shape: seq<Piece>, values: seq<string>, tail: string)
    requires DoesHoles(splice) && |values| == |shape|
    ensures splice(Filled(shape, values) + tail, Reported(shape, values)) == Spliced(shape, values, tail)
    decreases |shape|
  {
    if shape == [] {
      assert [] + tail == tail;
    } else {
      hide Filled, Reported, Spliced, Behind, DoesHoles;
      var n := |shape| - 1;
      LastHole(splice, shape, values, tail);
      SplicedLast(shape, values, tail);
      HoleByHole(splice, shape[..n], values[..n], Behind(shape[n], values[n], tail));
    }
  }

  lemma SpliceOfShape(shape: seq<Piece>, values: seq<string>, tail: string)
    requires |values| == |shape|
    ensures Splice(Filled(shape, values) + tail, Reported(shape, values)) == Spliced(shape, values, tail)
  {
    var splice := (text: string, rs: seq<Replacement>) => Splice(text, rs);
    forall filled, p, value, tail', rs ensures DoesHole(splice, filled, p, value, tail', rs) {
      SpliceHole(filled, p, value, tail', rs);
    }
    HoleByHole(splice, shape, values, tail);
  }

  // ---- A default reported twice ---------------------------------------------------------------------------

  /** No character is white space. */
  predicate AllInk(s: string) { Ink(s) == |s| }

  lemma {:induction false} InkBound(s: string)
    ensures Ink(s) <= |s|
    ensures (forall k :: 0 <= k < |s| ==> !IsSpace(s[k])) ==> AllInk(s)
  {
    if s != [] { InkBound(s[1..]); }
  }

  lemma InkTail(s: string, n: nat)
    requires AllInk(s) && n <= |s|
    ensures AllInk(s[n..])
  {
    InkBound(s[..n]);
    InkBound(s[n..]);
    InkAdds(s[..n], s[n..]);
    assert s[..n] + s[n..] == s;
  }

  /** The leftovers of markers that `m` further replacements of `n` characters leave behind. */
  function Leftover(size: nat, n: nat, m: nat): nat
    requires n <= size
  {
    if m == 0 then 0 else size - n + Leftover(size, n, m - 1)
  }

  lemma {:induction false} AfterInk(marker: string, n: nat, rest: string, m: nat)
    requires AllInk(marker) && n <= |marker|
    ensures Ink(After(marker, n, marker + rest, m)) == |marker| + Leftover(|marker|, n, m) + Ink(rest)
    decreases m
  {
    if m == 0 {
      InkAdds(marker, rest);
    } else {
      var left := marker[n..] + rest;
      assert Drop(marker + rest, n) == left;
      AfterInk(marker, n, left, m - 1);
      InkAdds(marker[n..], rest);
      InkTail(marker, n);
    }
  }

  lemma {:induction false} LongerLeavesLess(size: nat, a: nat, b: nat, m: nat)
    requires a < b <= size && m >= 1
    ensures Leftover(size, a, m) > Leftover(size, b, m)
  {
    if m > 1 { LongerLeavesLess(size, a, b, m - 1); }
  }

  lemma MarkersAreInk()
    ensures AllInk(ENV) && AllInk(DEFAULT) && |ENV| == 5 && |DEFAULT| == 9
  {
    hide Ink, AllInk;
    assert forall c :: c in ENV || c in DEFAULT ==> !IsSpace(c);
    InkBound(ENV);
    InkBound(DEFAULT);
  }

  /** A value that is replaced once, or that every marker in its place covers. */
  predicate Covers(p: Piece, n: nat) { p.copies == 1 || n <= |p.marker| }

  /** The ink of a spliced piece, when its value has `n` characters. */
  function PieceInk(p: Piece, n: nat): nat
    requires IsHole(p) && Covers(p, n)
  {
    Ink(p.text) + |p.marker| + (if p.copies == 1 then 0 else Leftover(|p.marker|, n, p.copies - 1))
  }

  lemma BehindInk(p: Piece, value: string, tail: string)
    requires IsHole(p) && Covers(p, |value|)
    ensures Ink(Behind(p, value, tail)) == PieceInk(p, |value|) + Ink(tail)
  {
    hide Ink;
    MarkersAreInk();
    assert Drop(value + tail, |value|) == tail;
    if p.copies == 1 {
      AfterInk(p.marker, 0, tail, 0);
    } else {
      AfterInk(p.marker, |value|, tail, p.copies - 1);
    }
    InkAdds(p.text, After(p.marker, |value|, value + tail, p.copies));
  }

  predicate AllCovered(shape: seq<Piece>, values: seq<string>) {
    |values| == |shape| && forall j :: 0 <= j < |shape| ==> IsHole(shape[j]) && Covers(shape[j], |values[j]|)
  }

  predicate NoLessInk(p: Piece, v: nat, w: nat) {
    IsHole(p) && Covers(p, v) && Covers(p, w) && PieceInk(p, v) >= PieceInk(p, w)
  }

  /** Two fillings, one with more ink in the tail or in some hole and no less in any other. */
  lemma {:induction false} MoreInkShows(shape: seq<Piece>, v: seq<string>, w: seq<string>, tailV: string, tailW: string, k: int)
    requires AllCovered(shape, v) && AllCovered(shape, w)
    requires forall j :: 0 <= j < |shape| ==> NoLessInk(shape[j], |v[j]|, |w[j]|)
    requires Ink(tailV) >= Ink(tailW)
    requires -1 <= k < |shape|
    requires if k < 0 then Ink(tailV) > Ink(tailW) else PieceInk(shape[k], |v[k]|) > PieceInk(shape[k], |w[k]|)
    ensures Ink(Spliced(shape, v, tailV)) > Ink(Spliced(shape, w, tailW))
    decreases |shape|
  {
    hide Ink, Behind, PieceInk, Covers;
    if shape != [] {
      var n := |shape| - 1;
      BehindInk(shape[n], v[n], tailV);
      BehindInk(shape[n], w[n], tailW);
      assert NoLessInk(shape[n], |v[n]|, |w[n]|);
      MoreInkShows(shape[..n], v[..n], w[..n], Behind(shape[n], v[n], tailV), Behind(shape[n], w[n], tailW),
        if k == n then -1 else k);
    }
  }

  lemma LongerHasNoMoreInk(p: Piece, v: nat, w: nat)
    requires IsHole(p) && Covers(p, v) && Covers(p, w) && (p.copies == 1 || v <= w)
    ensures NoLessInk(p, v, w)
    ensures p.copies > 1 && v < w ==> PieceInk(p, v) > PieceInk(p, w)
  {
    hide Ink;
    MarkersAreInk();
    if p.copies > 1 && v < w { LongerLeavesLess(|p.marker|, v, w, p.copies - 1); }
  }

  /**
   A filling whose repeated values are no longer than another's has more ink once spliced, when
   one of them is shorter or the tail has more.
   */
  lemma ShorterShows(shape: seq<Piece>, v: seq<string>, w: seq<string>, tailV: string, tailW: string, k: int)
    requires AllCovered(shape, v) && AllCovered(shape, w) && Ink(tailV) >= Ink(tailW)
    requires forall j :: 0 <= j < |shape| ==> shape[j].copies == 1 || |v[j]| <= |w[j]|
    requires -1 <= k < |shape|
    requires if k < 0 then Ink(tailV) > Ink(tailW) else shape[k].copies > 1 && |v[k]| < |w[k]|
    ensures Tidy(Spliced(shape, v, tailV)) != Tidy(Spliced(shape, w, tailW))
  {
    hide Ink, Tidy, Spliced, NoLessInk, PieceInk;
    forall j | 0 <= j < |shape| ensures NoLessInk(shape[j], |v[j]|, |w[j]|) {
      LongerHasNoMoreInk(shape[j], |v[j]|, |w[j]|);
    }
    if k >= 0 { LongerHasNoMoreInk(shape[k], |v[k]|, |w[k]|); }
    MoreInkShows(shape, v, w, tailV, tailW, k);
    TidyKeepsInk(Spliced(shape, v, tailV));
    TidyKeepsInk(Spliced(shape, w, tailW));
  }

  // ---- The shape of a text ----------------------------------------------------------------------------------

  /** From right to left, apart unless they are the same. */
  predicate InBlocks(text: string, rs: seq<Replacement>) {
    && (forall k :: 0 <= k < |rs| ==> InRange(text, rs[k]))
    && forall i, j :: 0 <= i < j < |rs| ==> rs[i] == rs[j] || rs[j].end <= rs[i].start
  }

  /** How many replacements at the front are the same. */
  function Alikes<T(==)>(rs: seq<T>): (m: nat)
    requires rs != []
    ensures 1 <= m <= |rs| && forall k :: 0 <= k < m ==> rs[k] == rs[0]
    ensures m < |rs| ==> rs[m] != rs[0]
  {
    if |rs| > 1 && rs[1] == rs[0] then 1 + Alikes(rs[1..]) else 1
  }

  function FrontEnd(rs: seq<Replacement>): nat { if rs == [] then 0 else rs[0].end }

  lemma BlocksDrop(text: string, rs: seq<Replacement>, m: nat)
    requires InBlocks(text, rs) && m <= |rs|
    ensures InBlocks(text, rs[m..])
  {
    forall k | 0 <= k < |rs| - m ensures InRange(text, rs[m..][k]) { assert InRange(text, rs[m + k]); }
  }

  lemma {:induction false} CopiesInFront(rs: seq<Replacement>, m: nat)
    requires m <= |rs| && forall k :: 0 <= k < m ==> rs[k] == rs[0]
    ensures m > 0 ==> Copies(rs[0], m) + rs[m..] == rs
    decreases m
  {
    if m > 0 { CopiesAlike(rs[0], m); }
  }

  lemma BlocksRest(text: string, rs: seq<Replacement>)
    requires InBlocks(text, rs) && rs != []
    ensures var m := Alikes(rs);
      && InBlocks(text, rs[m..]) && FrontEnd(rs[m..]) <= rs[0].start < rs[0].end <= |text|
      && rs == Copies(rs[0], m) + rs[m..]
  {
    hide Alikes, Copies;
    var m := Alikes(rs);
    BlocksDrop(text, rs, m);
    CopiesInFront(rs, m);
    assert InRange(text, rs[0]);
    if m < |rs| { assert rs[m].end <= rs[0].start; }
  }

  /** The pieces in front of the replacements and the holes that these make. */
  function ShapeOf(text: string, rs: seq<Replacement>): seq<Piece>
    requires InBlocks(text, rs)
    decreases |rs|
  {
    if rs == [] then []
    else
      BlocksRest(text, rs);
      var rest := rs[Alikes(rs)..];
      ShapeOf(text, rest) + [Piece(text[FrontEnd(rest)..rs[0].start], rs[0].value, Alikes(rs))]
  }

  function ValuesOf(text: string, rs: seq<Replacement>): (r: seq<string>)
    requires InBlocks(text, rs)
    ensures |r| == |ShapeOf(text, rs)|
    decreases |rs|
  {
    if rs == [] then []
    else
      BlocksRest(text, rs);
      ValuesOf(text, rs[Alikes(rs)..]) + [text[rs[0].start..rs[0].end]]
  }

  lemma ShapeLast(text: string, rs: seq<Replacement>)
    requires InBlocks(text, rs) && rs != []
    ensures var rest := rs[Alikes(rs)..];
      && InBlocks(text, rest) && FrontEnd(rest) <= rs[0].start < rs[0].end <= |text|
      && ShapeOf(text, rs) == ShapeOf(text, rest) + [Piece(text[FrontEnd(rest)..rs[0].start], rs[0].value, Alikes(rs))]
      && ValuesOf(text, rs) == ValuesOf(text, rest) + [text[rs[0].start..rs[0].end]]
  {
    hide InBlocks, Alikes, Copies;
    BlocksRest(text, rs);
  }

  /** Filling the shape of a text with its values gives the text, and reports its replacements. */
  lemma {:induction false} ShapeFills(text: string, rs: seq<Replacement>)
    requires InBlocks(text, rs)
    ensures FrontEnd(rs) <= |text| && Filled(ShapeOf(text, rs), ValuesOf(text, rs)) == text[..FrontEnd(rs)]
    ensures Reported(ShapeOf(text, rs), ValuesOf(text, rs)) == rs
    decreases |rs|
  {
    hide Filled, Reported, Copies, InBlocks, Alikes, Report;
    if rs == [] {
      NothingFilled();
    } else {
      BlocksRest(text, rs);
      ShapeLast(text, rs);
      hide ShapeOf, ValuesOf;
      var r, rest := rs[0], rs[Alikes(rs)..];
      ShapeFills(text, rest);
      var piece, value := Piece(text[FrontEnd(rest)..r.start], r.value, Alikes(rs)), text[r.start..r.end];
      OneMorePiece(ShapeOf(text, rest), ValuesOf(text, rest), piece, value);
      ThreeParts(text, FrontEnd(rest), r.start, r.end);
      HoleReported(text, FrontEnd(rest), r, piece);
    }
  }

  lemma ThreeParts(text: string, a: nat, b: nat, c: nat)
    requires a <= b <= c <= |text|
    ensures text[..a] + (text[a..b] + text[b..c]) == text[..c]
  {}

  lemma HoleReported(text: string, front: nat, r: Replacement, p: Piece)
    requires front <= r.start < r.end <= |text| && p.text == text[front..r.start] && p.marker == r.value
    ensures Report(p, |text[..front]| + |p.text|, text[r.start..r.end]) == r
  {}

  lemma NothingFilled()
    ensures Filled([], []) == [] && Reported([], []) == []
  {}

  lemma OneMorePiece(shape: seq<Piece>, values: seq<string>, p: Piece, value: string)
    requires |values| == |shape|
    ensures Filled(shape + [p], values + [value]) == Filled(shape, values) + (p.text + value)
    ensures Reported(shape + [p], values + [value])
      == Copies(Report(p, |Filled(shape, values)| + |p.text|, value), p.copies) + Reported(shape, values)
  {
    hide Copies, Filled, Reported;
    assert (shape + [p])[..|shape|] == shape && (values + [value])[..|shape|] == values;
    FilledLast(shape + [p], values + [value]);
  }

  lemma FilledLast(shape: seq<Piece>, values: seq<string>)
    requires |values| == |shape| && shape != []
    ensures var n := |shape| - 1;
      var front := Filled(shape[..n], values[..n]);
      && Filled(shape, values) == front + (shape[n].text + values[n])
      && Reported(shape, values) == Copies(Report(shape[n], |front| + |shape[n].text|, values[n]), shape[n].copies)
        + Reported(shape[..n], values[..n])
  {}

  /** Splicing a text goes hole by hole over its shape. */
  lemma SpliceByShape(text: string, rs: seq<Replacement>)
    requires InBlocks(text, rs)
    ensures FrontEnd(rs) <= |text|
    ensures Splice(text, rs) == Spliced(ShapeOf(text, rs), ValuesOf(text, rs), text[FrontEnd(rs)..])
  {
    hide Splice, Spliced, Filled, Reported, InBlocks, ShapeOf, ValuesOf;
    ShapeFills(text, rs);
    assert text == text[..FrontEnd(rs)] + text[FrontEnd(rs)..];
    SpliceOfShape(ShapeOf(text, rs), ValuesOf(text, rs), text[FrontEnd(rs)..]);
  }

  /** The normalized text of a filled shape. */
  function Normal(shape: seq<Piece>, values: seq<string>, tail: string): string
    requires |values| == |shape|
  {
    Tidy(Splice(Filled(shape, values) + tail, Reported(shape, values)))
  }

  // ---- From usages to shapes -----------------------------------------------------------------------------

  predicate AllWithin(rs: seq<Replacement>, limit: nat) { forall r :: r in rs ==> r.start < r.end <= limit }

  /** In order from right to left, told apart by their starts, and within the text. */
  predicate WellListed(rs: seq<Replacement>, limit: nat) {
    Descending(rs) && StartsTell(rs) && AllWithin(rs, limit)
  }

  ghost predicate ListsOn(listed: (seq<Replacement>, nat) -> bool, front: string, p: Piece, value: string, rs: seq<Replacement>) {
    value != [] && listed(rs, |front|) ==>
      listed(Copies(Report(p, |front| + |p.text|, value), p.copies) + rs, |front + (p.text + value)|)
  }

  /** What holds of no replacements, and of one more hole's, holds of all that are reported. */
  lemma {:induction false} ListedHoleByHole(listed: (seq<Replacement>, nat) -> bool, shape: seq<Piece>, values: seq<string>)
    requires listed([], 0) && (forall front, p, value, rs :: ListsOn(listed, front, p, value, rs))
    requires Fills(shape, values)
    ensures listed(Reported(shape, values), |Filled(shape, values)|)
    decreases |shape|
  {
    if shape != [] {
      var n := |shape| - 1;
      ListedHoleByHole(listed, shape[..n], values[..n]);
      assert ListsOn(listed, Filled(shape[..n], values[..n]), shape[n], values[n], Reported(shape[..n], values[..n]));
    }
  }

  lemma ReportedLies(shape: seq<Piece>, values: seq<string>)
    requires Fills(shape, values)
    ensures WellListed(Reported(shape, values), |Filled(shape, values)|)
  {
    var listed := (rs: seq<Replacement>, limit: nat) => WellListed(rs, limit);
    forall front, p, value, rs ensures ListsOn(listed, front, p, value, rs) {
      if value != [] && listed(rs, |front|) {
        BlocksInOrder(rs, Report(p, |front| + |p.text|, value), p.copies);
      }
    }
    ListedHoleByHole(listed, shape, values);
  }

  lemma {:induction false} CopiesAlike(r: Replacement, m: nat)
    ensures |Copies(r, m)| == m && forall k :: 0 <= k < m ==> Copies(r, m)[k] == r
  {
    if m > 0 { CopiesAlike(r, m - 1); }
  }

  lemma BlocksInOrder(front: seq<Replacement>, r: Replacement, m: nat)
    requires Descending(front) && StartsTell(front)
    requires AllWithin(front, r.start) && r.start < r.end
    ensures var all := Copies(r, m) + front; Descending(all) && StartsTell(all) && AllWithin(all, r.end)
  {
    CopiesAlike(r, m);
    assert forall k :: 0 <= k < |front| ==> front[k] in front;
  }

  /**
   However the usages are listed, an owner whose usages report the holes of a shape has the
   shape's normalized text.
   */
  lemma OwnerTextOfShape(text: string, owner: Extent, usages: seq<Usage>, shape: seq<Piece>, values: seq<string>, tail: string)
    requires (forall k :: 0 <= k < |usages| ==> WellPlaced(usages[k])) && Fills(shape, values)
    requires text == Filled(shape, values) + tail
    requires multiset(Replacements(owner, usages)) == multiset(Reported(shape, values))
    ensures Tidy(Splice(text, SortDescending(Replacements(owner, usages)))) == Normal(shape, values, tail)
  {
    ReportedLies(shape, values);
    SortDescends(Replacements(owner, usages));
    DescendingUnique(SortDescending(Replacements(owner, usages)), Reported(shape, values));
  }
}
